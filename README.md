# llgc object core in Dafny

This project models the object layer of llgc, a small reference-counted Lisp
runtime written in C (`src/llgc.c`). It covers:

- source locations packed into one word;
- the `DataType` tag encoding and its parity rule;
- `ll_malloc`, `ll_type_internal` and `ll_type`;
- the reference-count protocol of `ll_free` and `ll_assign`;
- every atom constructor and accessor;
- text stored inline or out of line by `ll_set_text_`;
- the symbol and string views;
- list cells (`ll_cons`, `ll_list`, `ll_car`, `ll_cdr`, `ll_next`);
- the atom reader `ll_read`.

Modules:

- `Location`, `Tags`, `CText`: pure encodings (location words, type tags, C strings).
- `Memory`: the heap as a value `Mem`.
  - Object slots are indexed by id (ids are never reused); text buffers are separate.
  - It defines the heap invariant `Valid`: children are older and alive, every count covers the references held inside the heap, and buffers and their owners point at each other.
  - It defines the specification of `ll_free` as the recursive ghost function `Release`. Its contract `ReleasedFrom` says the invariant survives, that p dies exactly when its count was at most 1, that whatever the release lowers below a count of 1 dies, that only objects owned solely from inside the heap die, and how every survivor's outside owners change.
  - It also holds the specifications of `ll_cons`, `ll_list` and `ll_next` on values, with the lemmas about them.
  - `Surplus(m, x) = Count(m, x) - Edges(m, x)` is the number of owners of x outside the heap (program variables).
- `Objects`: the heap as a class `Heap` whose fields `objs` and `bufs` the methods update in place.
  - Every public operation keeps `Valid()`. All except `ListOf` state their new state as a function of the old one (the text constructors through `WithText`), e.g. `Free` ensures `State() == ReleaseRef(old(State()), o)`. `ListOf` states the new state part by part: the cells it adds and their list, which ends in NULL, every count, and that older objects keep their liveness and their children and the buffers stay the same. `Malloc` and `SetText` are steps inside the constructors: they may leave a slot whose tag and payload do not agree yet, and the constructor that calls them restores `Valid()`.
  - `Free` is recursive like `ll_free`.
- `Scanner`: the lexical side of `ll_read` as functions.
  - `ReadAtom` is the reference definition of one read: white space, a token or a string literal, strtol base 10, then classification.
  - It carries lemmas for every kind of token and for each input of the parsing test `test_parsing_atoms` (src/llgc.c:473-508).
- `Reader`: `ll_read` as the C code runs it, with its pointer-walking loops over a C string. It is proved against `ReadAtom`, and the object it returns holds the atom `ReadAtom` describes.

Facts about the C code that the model follows:

- `ll_read` reads atoms only; it has no list syntax, no parentheses and no arity bound.
- White space is C `isspace`: space, \t, \n, \v, \f and \r.
- An unterminated string literal makes `ll_read` run past the end of the text (undefined behaviour in C). The model requires the literal to be closed (`Readable`).
- `ll_next` returns the old car without giving the caller an owner of it, and asserts that the slot holds a list cell.

## Model

| member | source | states |
|---|---|---|
| Location.Create | src/llgc.c:11-15 | the column goes in the high 16 bits and the line in the low 16 bits; `Line` (`l_line`, line 14) and `Column` (`l_column`, line 15) read each back |
| Location.CreateOfParts | src/llgc.c:11-15 | every location word is `l_create` of its own line and column |
| Location.CreateInjective | src/llgc.c:11-13 | distinct (line, column) pairs give distinct locations |
| Location.SelfTestPairs | src/llgc.c:17-27 | the three line/column pairs of the location self test read back unchanged |
| Tags.ParityEncoding | src/llgc.c:33-45 | under `Code`, the enumerators' numeric values, List is the only tag with code 0, and every other tag is odd (the self test's parity checks, lines 47-62) |
| Tags.CodeInjective | src/llgc.c:33-45 | no two tags share a code |
| Tags.Normalize | src/llgc.c:96-103 | `ll_type` maps LongSymbol to Symbol and LongString to String, and leaves every other tag alone |
| Tags.NormalizeKeepsParity | src/llgc.c:96-103 | normalising keeps a tag's parity and is idempotent |
| Memory.PointerWordsEven | src/llgc.c:95 | a pointer in the first word is even (NULL, or an 8-byte-aligned address), so it never looks like a tag |
| Memory.TypeInternalOf | src/llgc.c:95 | an object is a list cell iff its first word is even; otherwise its first word is the tag |
| CText.CString | src/llgc.c:154-164 | reading bytes as a C string gives the longest NUL-free prefix, stopped by a NUL when one follows |
| CText.CStringTerminated | src/llgc.c:154-164 | bytes after a NUL terminator are never read |
| CText.CStringPlain | src/llgc.c:165-171 | a NUL-free text reads back as itself |
| CText.InlineText | src/llgc.c:159-163 | short text padded with NUL bytes in the payload word reads back as the text |
| CText.At | src/llgc.c:434-446 | the byte at a char pointer is the text's, or the terminating NUL past its end; in a NUL-free text the NUL is met exactly at the end |
| Objects.Heap.constructor | src/llgc.c:254-256 | the heap a test starts from, before its first allocation, is empty and valid |
| Objects.Heap.Malloc | src/llgc.c:89-94 | a fresh slot with count 0 whose first word holds the tag (NULL car for List); nothing else changes |
| Objects.Heap.TypeInternal | src/llgc.c:95 | NULL is Nil; an odd first word is the tag; an even one makes a list cell |
| Objects.Heap.TypeOf | src/llgc.c:96-103 | Nil exactly for NULL; never a Long variant; List exactly when `ll_type_internal` says List |
| Objects.Heap.Free | src/llgc.c:105-118 | the new heap is `ReleaseRef` of the old one (nothing for NULL, `Release` otherwise, lines 106-107), itself a valid heap, reached by the same recursive cascade |
| Memory.Release | src/llgc.c:105-118 | the invariant is kept, p survives iff its count was above 1, and every survivor keeps its outside owners except p, which loses one; every object whose count drops below 1 dies; only objects owned solely from inside the heap die besides p; the buffers of dead objects are freed; a surviving p only has its count decremented |
| Memory.DecrementReleases | src/llgc.c:108-109 | decrementing a count that stays at least 1 is a release that changes nothing else |
| Memory.AtomDiscardReleases | src/llgc.c:109-116 | freeing an atom (with its text buffer) at count below 1 is a release |
| Memory.DiscardFacts | src/llgc.c:110-116 | `Discard`, which frees a dead object and its text buffer, keeps the invariant, keeps every other count, and removes exactly the references the object held |
| Memory.SecondChildReady | src/llgc.c:113-114 | after releasing the car, the cdr is still a reference the dying cell may release |
| Memory.ComposeRelease | src/llgc.c:112-116 | freeing a list cell and releasing its car and then its cdr is a release of the cell |
| Memory.ComposeNoLeak | src/llgc.c:109-116 | the cascade from a freed cell leaves no object alive at a count it lowered below 1 |
| Memory.NoLeakTrans | src/llgc.c:113-114 | two releases in a row, each freeing what it lowers below 1, free what they lower below 1 together |
| Memory.ComposeSurplus | src/llgc.c:112-116 | every survivor of the cascade loses exactly the reference the freed cell held to it |
| Memory.ComposeDying | src/llgc.c:112-116 | every object the cascade destroys besides the cell was owned only from inside the heap |
| Memory.ReleaseAtom | src/llgc.c:105-118 | releasing an atom changes only that atom: one count less, and it is gone when none is left |
| Memory.ReleaseCellOfAtoms | src/llgc.c:112-115 | freeing a cell whose children are atoms takes from every other object exactly the references the cell held, and a child dies exactly when no count is left (the list test, lines 341-344) |
| Objects.Heap.Assign | src/llgc.c:120-125 | the new heap is the old one with l released and then r retained (`Retain`, lines 122-123: one count more, nothing for NULL), and r is returned |
| Memory.FreshUnowned | src/llgc.c:89-94 | a freshly constructed object has no owner inside the heap and none outside |
| Memory.AssignFresh | src/llgc.c:120-125 | assigning a fresh object to any slot leaves it at count 1, owned once (the atom test's `ref_count == 1` checks, lines 258-318) |
| Memory.SelfAssignShared | src/llgc.c:120-125 | `ll_assign(o, o)` while another owner holds o leaves the heap exactly as it was |
| Memory.SelfAssignLast | src/llgc.c:120-125 | `ll_assign(o, o)` by the last owner frees o first, so the pointer it returns is dangling |
| Objects.Heap.NewBool | src/llgc.c:127-135 | a fresh Bool object with count 0, typed Bool, from which `ll_to_bool` (`ToBool`) reads back v |
| Objects.Heap.NewInt | src/llgc.c:136-144 | a fresh Int object, typed Int, from which `ll_to_int` (`ToInt`) reads back v |
| Objects.Heap.NewFloat | src/llgc.c:145-153 | a fresh Float object, typed Float, from which `ll_to_float` (`ToFloat`) reads back the double's bits |
| Objects.Heap.NewCData | src/llgc.c:191-199 | a fresh CData object, typed CData, from which `ll_to_cdata` (`ToCData`) reads back the address |
| Objects.Heap.NewCFunc | src/llgc.c:200-208 | a fresh CFunc object, typed CFunc, from which `ll_to_cfunc` (`ToCFunc`) reads back the function |
| Objects.AtomValid | src/llgc.c:127-131 | a fresh atom whose payload matches its tag keeps the heap valid |
| Objects.Heap.SetText | src/llgc.c:154-164 | text longer than 7 bytes goes into a new NUL-terminated buffer owned by the object; shorter text fills the cleared payload word; nothing else changes |
| Objects.TextValid | src/llgc.c:154-164 | the stored text keeps the heap valid and reads back as the C string of the text |
| Objects.LongTextValid | src/llgc.c:155-158 | an out-of-line copy keeps the heap valid and reads back as the text |
| Objects.ShortTextValid | src/llgc.c:159-163 | an inline copy keeps the heap valid and reads back as the text |
| Objects.Heap.SymbolView | src/llgc.c:165-170 | a fresh symbol over src[b..e], LongSymbol iff longer than 7 bytes, reported as Symbol, whose text reads back; the new heap is `WithText` of the old one: the object appended with its tag and inline NUL-padded word, or with a fresh NUL-terminated buffer it owns |
| Objects.Heap.NewSymbol | src/llgc.c:171 | a symbol over the C string v (up to its first NUL); the new heap is `WithText` of the old one: the object appended with its tag and inline NUL-padded word, or with a fresh NUL-terminated buffer it owns |
| Objects.Heap.ToSymbol | src/llgc.c:172-177 | the stored text, read as a C string, from the buffer for LongSymbol and from the payload word otherwise |
| Objects.Heap.StringView | src/llgc.c:178-183 | a fresh string over src[b..e], LongString iff longer than 7 bytes, reported as String, whose text reads back; the new heap is `WithText` of the old one: the object appended with its tag and inline NUL-padded word, or with a fresh NUL-terminated buffer it owns |
| Objects.Heap.NewString | src/llgc.c:184 | a string over the C string v; the new heap is `WithText` of the old one: the object appended with its tag and inline NUL-padded word, or with a fresh NUL-terminated buffer it owns |
| Objects.Heap.ToString | src/llgc.c:185-190 | the stored text, read as a C string, from the buffer for LongString and from the payload word otherwise |
| Objects.Heap.Cons | src/llgc.c:210-216 | a new List cell holding a and b; the heap becomes `ConsState`: both children retained, the cell appended with count 0 (its validity is `Memory.ConsValid`, its counts `Memory.ConsCounts`) |
| Objects.ConsSteps | src/llgc.c:211-213 | the three heaps `ll_cons` passes through are valid, and each assignment retains the child it links |
| Memory.ConsValid | src/llgc.c:210-216 | the heap after `ll_cons` is valid, and the new cell is its only new object |
| Memory.ConsCounts | src/llgc.c:210-216 | each older object gains one count per child slot naming it, all of them owners inside the heap; the cell has count 0 and no owner (the list test, lines 335-339) |
| Memory.ConsList | src/llgc.c:210-216 | the new cell's list is a in front of the list at b, on a new cell in front of b's cells |
| Memory.ListFrame | src/llgc.c:210-216 | a list is unchanged by a step that keeps every live object alive with the same children (a release that frees some object is not such a step) |
| Objects.Heap.ListOf | src/llgc.c:218-223 | the list of the items in order on fresh cells, newest first: NULL iff there are no items; the last cell's cdr is NULL (the list test, lines 394-395); the head at count 0 and every inner cell at count 1; each older object gains one owner per occurrence, none of them outside the heap, and keeps its car and cdr; the buffers are unchanged (the list test, lines 361-368) |
| Memory.ListStart | src/llgc.c:219 | the fold starts from NULL with nothing consed |
| Memory.ListShapeStep | src/llgc.c:220-221 | one more `ll_cons` extends the list to items[i-1..] on the newest cell |
| Memory.ListHeapStep | src/llgc.c:220-221 | one more `ll_cons` keeps the heap valid and every older object's liveness |
| Memory.ListChainStep | src/llgc.c:220-221 | after one more `ll_cons` the newest cell heads items[i-1..] and the cell ids still count down |
| Memory.ListEndStep | src/llgc.c:219-221 | one more `ll_cons` keeps every older object's children, and the list still ends in the NULL the fold started from |
| Memory.SpineAlive | src/llgc.c:225-233 | every cell of a list is a live object |
| Memory.ListCountsStep | src/llgc.c:220-221 | one more `ll_cons` keeps the count bookkeeping of the fold |
| Memory.ListCellCounts | src/llgc.c:220-221 | the new head has count 0 and the previous head, now second, has count 1 |
| Memory.ListOlderCounts | src/llgc.c:220-221 | older objects gain one count per occurrence in items[i-1..] |
| Memory.OccurrencesCons | src/llgc.c:220-221 | occurrences in a list with an item in front add up |
| Objects.Heap.Car | src/llgc.c:225-228 | the first child of a list cell: a usable pointer to an older object |
| Objects.Heap.Cdr | src/llgc.c:230-233 | the second child of a list cell: a usable pointer to an older object |
| Objects.Heap.Next | src/llgc.c:235-242 | returns the cell's car and cdr, and the heap becomes `NextState`: the slot owns the cdr, then the cell is released (what that does to every object is `Memory.NextOwnership`) |
| Memory.NextHold | src/llgc.c:236-238 | holding the cell in a local and releasing it from the slot cancel out |
| Memory.NextLetGo | src/llgc.c:238-240 | retaining the cdr for the slot and then letting go of the local is the release `NextState` describes |
| Memory.NextOwnership | src/llgc.c:235-242 | the cdr is always usable after the call; the cell survives iff it had another owner; every survivor's outside owners change only by the cdr gaining one and the cell losing one |
| Memory.NextSharedCell | src/llgc.c:235-242 | when another owner holds the cell, nothing dies, the cell's count drops by one and the cdr's rises by one (the iteration test, lines 398-411) |
| Scanner.SpaceEnd | src/llgc.c:434-435 | the first position at or after i that is not white space (`IsSpace`, C `isspace`): all skipped bytes are spaces |
| Scanner.TokenEnd | src/llgc.c:445-446 | the first white space under `IsSpace` (or the end of the text) at or after i, with no white space before it |
| Scanner.CloseFrom | src/llgc.c:439-441 | the first quote not preceded by a backslash after the opening quote |
| Scanner.ClosedFurther | src/llgc.c:440-441 | the scan for the closing quote stays inside the text |
| Scanner.DigitRun | src/llgc.c:454 | the longest run of decimal digits at i |
| Scanner.DigitValue | src/llgc.c:454 | a digit's value is below 10 |
| Scanner.Clamp | src/llgc.c:454 | a value that fits a 64-bit long is kept |
| Scanner.ClampNearest | src/llgc.c:454 | a value out of range saturates to the nearest 64-bit long, LONG_MIN or LONG_MAX, and clamping is idempotent |
| Scanner.StrToL | src/llgc.c:454 | base-10 strtol stops inside the text, at or after the start |
| Scanner.StrtolPrefix | src/llgc.c:454 | when strtol stops at its start the value is 0; otherwise it consumed an integer literal and yields its saturated value; it never stops before a digit |
| Scanner.ReadAtom | src/llgc.c:431-471 | one read ends at or after its start and within the text; a token is classified by `Classify` (lines 448-463), whose cases are `ReadBoolToken`, `ReadIntToken` and `ReadOtherToken` |
| Scanner.SpaceEndAt | src/llgc.c:434-435 | the white-space skip ends at the unique position its contract describes |
| Scanner.TokenEndAt | src/llgc.c:445-446 | the token scan ends at the unique position its contract describes |
| Scanner.DigitRunAt | src/llgc.c:454 | the digit run ends at the unique position its contract describes |
| Scanner.CloseFromAt | src/llgc.c:440-441 | the literal ends at the unique closing quote its contract describes |
| Scanner.StrtolWholeToken | src/llgc.c:452-456 | strtol stops exactly at the end of a token iff the token is an optionally signed run of digits, and then yields its saturated value |
| Scanner.StrtolOnLiteral | src/llgc.c:454-455 | on an integer literal, strtol consumes the whole token and yields its value |
| Scanner.StrtolOnOther | src/llgc.c:454-455 | on any other token, strtol stops short of its end |
| Scanner.DigitsRoundTrip | src/llgc.c:454 | the decimal digits of n denote n |
| Scanner.DecimalRoundTrip | src/llgc.c:454-456 | every 64-bit integer written in decimal is an integer literal that strtol reads back exactly |
| Scanner.ReadBlank | src/llgc.c:432-435 | nothing but white space reads as NULL and is consumed entirely |
| Scanner.ReadToken | src/llgc.c:434-447 | leading white space is skipped and the token runs to the next white space before it is classified |
| Scanner.TokenAt | src/llgc.c:434-446 | in white space, a token and a delimiter, the white-space skip stops at the token's first byte, which opens no literal, and the token scan stops right after its last byte |
| Scanner.ReadsWordAt | src/llgc.c:444-464 | a read that finds no opening quote classifies the token at the first non-blank byte |
| Scanner.SkipTo | src/llgc.c:434-435 | the white-space skip stops at the first non-blank byte |
| Scanner.TokenSpan | src/llgc.c:445-446 | a token followed by white space or the end of the text ends where it appears to |
| Scanner.ReadIntToken | src/llgc.c:448-456 | a token reads as an Int iff it is an optionally signed run of digits, and then as its saturated value |
| Scanner.ReadDecimal | src/llgc.c:452-456 | every 64-bit integer written in decimal is read back as that integer |
| Scanner.ReadOtherToken | src/llgc.c:457-463 | any other token reads as the Float strtod produces when it consumes the whole token, and otherwise as a Symbol over exactly its bytes |
| Scanner.ReadBoolToken | src/llgc.c:448-451 | the tokens `true` and `false` read as the Bools true and false (that no other token reads as a Bool follows from `ReadIntToken` and `ReadOtherToken`) |
| Scanner.ReadStringLiteral | src/llgc.c:438-443 | a string literal reads as a String holding exactly the bytes between its quotes, escapes included, and the read ends after the closing quote |
| Scanner.LiteralCloses | src/llgc.c:440-441 | the first unescaped quote after the opening quote is the one right after the literal's body |
| Scanner.NotLiteral | src/llgc.c:454-455 | a token with a non-digit after its first byte is no integer literal |
| Scanner.ParsingBlank | src/llgc.c:477-478 | the empty text reads as NULL |
| Scanner.ParsingSymbol | src/llgc.c:480-481 | `sym` reads as the symbol `sym` |
| Scanner.ParsingPaddedSymbol | src/llgc.c:482-483 | ` \n xxx  ` reads as the symbol `xxx` |
| Scanner.ParsingLongSymbol | src/llgc.c:484-485 | `a_really_long_sym98` reads as that symbol |
| Scanner.ParsingStrings | src/llgc.c:487-490 | both string literals of the parsing test, one with an escaped quote, read as the strings between their quotes |
| Scanner.EscapedQuoteBody | src/llgc.c:489-490 | a body whose only quote is escaped is a valid literal body |
| Scanner.ParsingBools | src/llgc.c:492-495 | `true` and ` false ` read as the two Bools |
| Scanner.ParsingInt | src/llgc.c:497-498 | `\t 523 ` reads as the Int 523 |
| Scanner.ParsingNegativeInt | src/llgc.c:499-500 | `\r -8635 ` reads as the Int -8635 |
| Scanner.ParsingFloats | src/llgc.c:502-505 | `\r 4.25 ` and `\r -6.75e2 ` read as the Floats strtod produces, 4.25 and -675 |
| Scanner.FloatWords | src/llgc.c:502-505 | the two float tokens are tokens but no integer literals |
| Scanner.LongSymbolWord | src/llgc.c:484-485 | the long symbol is a token but no integer literal |
| Reader.Read | src/llgc.c:431-471 | stops where `ReadAtom` says; on blank input returns NULL and changes nothing, otherwise returns a fresh count-0 object holding exactly the atom `ReadAtom` describes (Long variant iff the text is longer than 7 bytes) |
| Reader.SkipSpace | src/llgc.c:434-435 | the white-space loop stops at the first byte at or after the start that is not white space, or at the terminator (`SpaceEnd`) |
| Reader.ReadLiteral | src/llgc.c:438-443 | stops after the first unescaped quote and returns a fresh String over the bytes between the quotes |
| Reader.FindClose | src/llgc.c:440-441 | the literal loop stops at the first quote after the opening one that no backslash precedes (`CloseFrom`), inside the text |
| Reader.ScanToken | src/llgc.c:445-446 | the token loop stops at the first white space or the terminator (`TokenEnd`) |
| Reader.ReadWord | src/llgc.c:444-464 | stops at the token's end and returns the object `Classify` describes: Bool, Int, Float or Symbol, or NULL for an empty token |

## Left out

- Floating point: strtod is the parameter `floatParse`. `floatParse(tok) == Some(d)` exactly when strtod consumes all of tok and yields the double with bits d. Doubles are kept as their 64 bits and never interpreted.
- The two conversion results of the parsing test's float checks are taken as premises of `Scanner.ParsingFloats`. `Scanner.ParsingSymbol`, `Scanner.ParsingPaddedSymbol` and `Scanner.ParsingLongSymbol` take as a premise that strtod does not consume their token (`floatParse(...) == None`). Both are needed because the model has no strtod.
- `Context` is an empty struct and is not modelled. The `location` field of an object is never written by this core and is not modelled.
- Raw memory is left out: `malloc` and `free`, `sizeof`, the union layout and byte-level aliasing of the payload word. A heap slot holds the tag and payload as a datatype, and `Freed` marks a freed object.
- The payloads of cdata and cfunc objects are opaque numbers (`Handle`, `FuncHandle`); the pointed-to data and native functions are not modelled.
- Bytes are `char`. White space is C `isspace` in the C locale. Non-ASCII bytes, for which `isspace` has undefined behaviour on signed char, are treated as non-space.
- `long` is taken to be 64 bits, as on LP64 systems. `strtol`'s saturation is modelled, but `errno` is not.
- The self tests and `main` are not modelled as code; their expectations appear as the lemmas named in the table.
- Objects.Heap.Free: requires a reference its caller may release (`CanRelease`): NULL, a live object at count 0, or a live object with an owner outside the heap. It excludes a live object with a positive count whose owners are all inside the heap; `ll_free` on it would drive its count below the references held to it (use after free).
- Objects.Heap.Assign: requires that the value assigned is still alive after the old one is released. This excludes `ll_assign(o, o)` by o's last owner, which returns a freed object (see `Memory.SelfAssignLast`).
- Memory.Release: the dying cell is taken out of the heap before its children are released, whereas C frees it after them and reads its cdr (line 114) after releasing its car. The model reads both children first and nothing writes the cell in between, so the final heap is the same.
- Objects.Heap.Next: requires that the slot holds a list cell its caller owns (`NextReady`). It also requires that the returned car survives the release of the cell (`NextKeepsCar`). Otherwise `ll_next` returns a dangling pointer.
- Reader.Read: requires a text without NUL bytes, which is what a C string is, and a closed string literal; an unterminated literal is scanned past the end of the text in C.
- `ref_count` is a C `int`; the model's counts are unbounded integers, so overflow of a count is not modelled.
- The tag word of a freshly allocated list cell is the NULL pointer (`D_List` is 0). Its cdr, uninitialised in C until `ll_cons` overwrites it, is modelled as NULL.
