# c-viz-frontend: decoding, heap segmentation, anomaly flags and the agenda panel

This project models the parts of the c-viz front end that compute what the
visualiser shows. The front end is the React viewer of a C interpreter, and
the model covers five parts:

- **Object decoding and drawing** (`src/utils/object.tsx`):
  - `displayValue` turns an object's bytes and type descriptor into text. Its `for` loops over array elements and structure members are modelled as methods with loop invariants.
  - `drawObjectInline` and `drawUninitBytes` give one bordered cell per byte, keyed by the byte's absolute address.
  - `visualizeObject` builds the nested table of members, elements, padding and nibbles.
- **Formatters** (`src/utils/utils.ts`, `src/utils.ts`): `decimalAddressToHex`, `displayBytes` and `hexDump`, built from models of the JavaScript string primitives they use (`slice`, `padStart`, `toUpperCase`, `toString(radix)`, `join`, `parseInt(s, 16)`).
- **Heap segmentation** (`src/viz/components/HeapAllocation.tsx`). `drawHeapContents` walks a heap block with a cursor. It splits the block into untyped gaps and typed, initialised objects, using the effective-type table.
- **Anomaly flags** (`src/viz/components/RuntimeObject.tsx`, `src/viz/components/TemporaryObject.tsx`):
  - a pointer is flagged as misaligned or as pointing to unallocated memory;
  - a runtime object is also flagged when uninitialised;
  - the tooltip names the first problem found;
  - a pointer temporary is tagged as a pointer source with its target address.
- **The agenda panel** (`src/viz/Agenda.tsx`): one ordered pass numbers the Mark instructions, tags each Return with the current count and picks colours from the palette. The rows are then reversed.

Modules, one per file:

| module | file | contents |
|---|---|---|
| Wrappers | wrappers.dfy | Option and Result |
| JsText | js_text.dfy | JavaScript string primitives, and the positional value of a digit string |
| HexFormat | hex_format.dfy | `decimalAddressToHex` and `displayBytes` |
| HexDump | hex_dump.dfy | `hexDump` and the second copy of `decimalAddressToHex` |
| CTypes | c_types.dfy | type descriptors; the stated byte-to-integer reading |
| ObjectView | object_view.dfy | `displayValue`, `drawObjectInline`, `drawUninitBytes` and `visualizeObject` as functions; `displayValue`'s loops as methods |
| ObjectLayout | object_layout.dfy | what those views promise |
| StructExample | struct_example.dfy | a worked structure with padding |
| HeapSegmenter | heap_segmenter.dfy | `drawHeapContents` as a method, the reference scan it is proved against, and the scan's properties |
| Anomalies | anomalies.dfy | the flags and tooltips of both object components |
| AgendaView | agenda.dfy | the agenda panel as a method, and the meaning of its rows |

Several views take the scalar case as a parameter: `displayValue`'s walk takes a `ScalarReader` and `drawObjectInline`'s takes a `LeafRenderer`. The front end's own behaviour is the instance with `ReadScalar(e)` and `Leaf(e)` (`DisplayValue`, `DrawInline`). The parameter lets the structural proofs run once for any leaf that has the stated property.

Where the code and the design description disagree, the model follows the code:

- **Absent heap address.** The description says an address missing from the effective-type table extends the gap. The code extends the gap only on the explicit no-effective-type marker. An absent key reaches the typed branch and fails on `tc.size`. The model returns `MissingEntry`.
- **Block coverage.** The description says the segments cover the block exactly. In the code, the last typed object may run past the block's end (`HeapSegmenter.ScanContiguous`).
- **Array loop.** `displayValue` loops over the array's byte size in steps of the element size, not over its length. A non-empty array of zero-sized elements would loop forever, and the model returns `Diverges` for it. For a well-formed type this never happens (`ObjectLayout.DisplayValueTotal`).

## Model

| member | source | states |
|---|---|---|
| HexFormat.AddressHexShape | src/utils/utils.ts:96-98 | a non-negative address becomes exactly 8 upper-case hex digits whose value is the address modulo 16^8 |
| HexFormat.AddressHexRoundTrip | src/utils/utils.ts:96-98 | below 16^8 the identity reads back as the address, so distinct addresses get distinct identities |
| HexFormat.ParseAddressText | src/viz/components/RuntimeObject.tsx:39 | parseInt(·, 16) of "0x" + decimalAddressToHex(a) is a modulo 16^8 |
| HexFormat.ByteChunkShape | src/utils/utils.ts:105-108 | a byte becomes exactly `width` upper-case digits of the chosen radix (8 binary digits or 2 hex digits) whose value is the byte |
| HexFormat.JoinLength | src/utils/utils.ts:107-109 | joining n parts of width w with a separator gives n·w + (n−1)·\|sep\| characters |
| HexFormat.DisplayBytesLength | src/utils/utils.ts:100-110 | the dump has n·width + (n−1)·\|sep\| characters, and none for no bytes |
| HexFormat.JoinedPartAt | src/utils/utils.ts:107-109 | without a separator, part i sits at characters [i·w, (i+1)·w) |
| HexFormat.ChunkAt | src/utils/utils.ts:107-109 | without a separator, byte i's chunk sits at characters [i·width, (i+1)·width), in input order |
| HexFormat.DisplayBytesRoundTrip | src/utils/utils.ts:100-110 | with an empty separator, cutting the dump into width-sized chunks and parsing each gives back the bytes |
| HexDump.AddressHexIsDumpOfEight | src/utils.ts:49-55 | the second copy of decimalAddressToHex is hexDump's padding and slice with 8 places, and it is 8 characters long |
| HexDump.PaddedHexShape | src/utils.ts:55 | the padded string is eight zeros, then the upper-case hex digits, and is worth the value |
| HexDump.HexDumpWidth | src/utils.ts:53-56 | for 1 ≤ sizeof ≤ 8 + digits, the dump is exactly sizeof upper-case hex digits worth the value modulo 16^sizeof |
| HexDump.HexDumpPadsShortValues | src/utils.ts:55 | with room for all digits, the dump is the digits left-padded with '0' to sizeof characters |
| HexDump.HexDumpTruncatesLongValues | src/utils.ts:55 | with fewer places than digits, only the last sizeof digits are kept |
| HexDump.HexDumpNoValue | src/utils.ts:54 | an object without a raw value dumps as "-" |
| HexDump.HexDumpWholeString | src/utils.ts:55 | sizeof 0 (slice(-0)), or a sizeof at least the padded length, gives the whole padded string |
| CTypes.UnsignedBound | src/utils/object.tsx:263 | the unsigned reading of k bytes is below 256^k |
| CTypes.BigintZeroIffZeroBytes | src/utils/object.tsx:263-266 | the reading is 0 exactly when every byte is 0, signed or not, in either byte order |
| CTypes.BigintRoundTrip | src/utils/object.tsx:263 | writing the reading back at the same width and byte order gives the original bytes |
| ObjectView.ComputeDisplayValue | src/utils/object.tsx:255-288 | displayValue as written, with its push loops, equals the functional DisplayValue |
| ObjectView.ComputeDisplay | src/utils/object.tsx:255-288 | the walk with loops equals Display for any scalar reader |
| ObjectView.ComputeElements | src/utils/object.tsx:271-276 | the array loop over offsets 0, es, 2·es, … below t.size returns the element texts in order, or the first element's error |
| ObjectView.ComputeMembers | src/utils/object.tsx:279-284 | the member loop returns each member's text in declaration order, or the first member's error |
| ObjectView.ElementStep | src/utils/object.tsx:274-275 | one array turn pushes the element at offset i and continues at i + es, or stops with its error |
| ObjectView.MemberStep | src/utils/object.tsx:281-283 | one structure turn pushes member k's text and continues at k+1, or stops with its error |
| ObjectView.Utf8 | src/utils/object.tsx:264 | a UTF-16 code unit takes one to three UTF-8 bytes |
| ObjectLayout.CollectSpec | src/utils/object.tsx:273-277 | collecting results succeeds exactly when every one does, and then lists their values in order; otherwise it reports the first failure |
| ObjectLayout.DisplayChecksLength | src/utils/object.tsx:260-261 | a byte list of the wrong length fails before any decoding |
| ObjectLayout.OffsetIsProduct | src/utils/object.tsx:113-117 | element i starts at i·es |
| ObjectLayout.SpanIsProduct | src/utils/object.tsx:204-222 | elements i.. take (length − i)·es bytes |
| ObjectLayout.OffsetStep | src/utils/object.tsx:274 | element j ends inside the array, and the next starts es bytes later |
| ObjectLayout.OffsetAtEnd | src/utils/object.tsx:274 | the elements end exactly at the array's size |
| ObjectLayout.ElementValuesTurn | src/utils/object.tsx:274-275 | the loop's turn at element j decodes element j on its own, then continues at element j+1 |
| ObjectLayout.ElementsFrom | src/utils/object.tsx:271-277 | from element j on, the loop yields exactly the per-element results collected in order |
| ObjectLayout.ArrayText | src/utils/object.tsx:271-278 | an array reads as "[" + its length elements' texts joined by ", " + "]", or fails with the first element's error |
| ObjectLayout.ElementAt | src/utils/object.tsx:274-275 | there are exactly `length` elements, and element k is decoded from bytes [k·es, (k+1)·es) |
| ObjectLayout.MembersFrom | src/utils/object.tsx:279-285 | from member k on, the loop yields exactly the per-member results collected in order |
| ObjectLayout.NextOffsetBound | src/utils/object.tsx:172-176 | in a well-formed structure each member's bytes end no later than the next member's start, inside the structure |
| ObjectLayout.StructText | src/utils/object.tsx:279-286 | a structure reads as tag + "{" + one entry per member in declaration order + "}", or fails with the first member's error |
| ObjectLayout.MemberAt | src/utils/object.tsx:282-283 | member k's entry is decoded from bytes [rel_k, rel_k + size_k) |
| ObjectLayout.ScalarDisplay | src/utils/object.tsx:262-263 | a scalar reads its bytes as an integer with its signedness and byte order, then formats it by kind |
| ObjectLayout.CharCodeUnit | src/utils/object.tsx:264 | a one-byte char names code unit b, or b + 0xFF00 when it is signed and negative |
| ObjectLayout.CharText | src/utils/object.tsx:264 | a char renders as one quoted character, or as its %XX escapes when encodeURI escapes it, and never fails |
| ObjectLayout.PointerText | src/utils/object.tsx:265-268 | a pointer renders "NULL" exactly when all its bytes are 0; a positive one renders "0x" + 8 upper-case hex digits that parse back to it modulo 16^8 |
| ObjectLayout.DecimalDigits | src/utils/object.tsx:269 | the decimal digits of a non-negative integer read back as it |
| ObjectLayout.IntegerText | src/utils/object.tsx:269 | another scalar renders as its decimal value, with a minus sign when negative; an unsigned one is never negative |
| ObjectLayout.ArrayFromElements | src/utils/object.tsx:271-278 | an array whose elements all decode has a text |
| ObjectLayout.StructFromMembers | src/utils/object.tsx:279-286 | a structure whose members all decode has a text |
| ObjectLayout.ScalarTotal | src/utils/object.tsx:262-270 | a well-formed scalar of the right length always has a text |
| ObjectLayout.ReadScalarTotal | src/utils/object.tsx:262-270 | the front end's scalar reader never fails on a one-byte char or on any other scalar |
| ObjectLayout.DisplayTotal | src/utils/object.tsx:255-288 | with a reader that never fails, the walk over a well-formed type fails exactly when the length is wrong |
| ObjectLayout.DisplayValueTotal | src/utils/object.tsx:255-288 | for a well-formed type, displayValue fails exactly when the byte list has the wrong length |
| ObjectLayout.PaddingTelescopes | src/utils/object.tsx:31-36 | from member k on, member sizes plus paddings span from member k's offset to the structure's end |
| ObjectLayout.StructSizeSplit | src/utils/object.tsx:172-176 | in a well-formed structure no padding is negative, and member sizes plus paddings are the structure's size |
| ObjectLayout.AddressesConcat | src/utils/object.tsx:171-200 | the byte-cell addresses of two views side by side are the first's followed by the second's |
| ObjectLayout.AddressesOfByteCells | src/utils/object.tsx:146-158 | cells at a, a+1, … carry exactly the addresses a .. a+n−1 |
| ObjectLayout.RangeConcat | src/utils/object.tsx:186-194 | consecutive address ranges join into one |
| ObjectLayout.RangeAt | src/utils/object.tsx:153 | the i-th address of Range(a, n) is a + i |
| ObjectLayout.UninitCells | src/utils/object.tsx:146-158 | drawUninitBytes(a, n) gives n "??" cells with the consecutive addresses a .. a+n−1 |
| ObjectLayout.LeafCellAt | src/utils/object.tsx:238-248 | byte cell i of a leaf sits at address + i and shows byte i as two upper-case hex digits |
| ObjectLayout.InlineScalarLeaf | src/utils/object.tsx:226-252 | a scalar leaf is its tag, carrying the decoded value as data-address when it is a pointer, then exactly size byte cells, cell i at address + i showing byte i |
| ObjectLayout.ThenJoin | src/utils/object.tsx:171-200 | two views laid side by side cover the union of their consecutive address ranges, with tags under the common prefix |
| ObjectLayout.LeafLayout | src/utils/object.tsx:226-252 | a well-formed scalar's cells carry the addresses address .. address+size−1 under its tag |
| ObjectLayout.LeafCellsCover | src/utils/object.tsx:226-252 | the front end's leaf renderer has the covering property the walk relies on |
| ObjectLayout.PaddingLayout | src/utils/object.tsx:186-194 | the padding after member k covers the PaddingAfter(t, k) addresses from address + rel + size, and only when it is positive |
| ObjectLayout.InlineLayout | src/utils/object.tsx:161-253 | for a well-formed type and the right bytes, the inline view exists, every tag starts with the prefix, and the byte cells carry exactly address .. address+size−1 in order, padding included |
| ObjectLayout.DrawLayout | src/utils/object.tsx:161-253 | the same for any leaf renderer with the covering property |
| ObjectLayout.TagExtends | src/utils/object.tsx:219 | an element's tag prefix + "[" + i + "]" extends the prefix |
| ObjectLayout.ElementTurn | src/utils/object.tsx:207-222 | element i's cells under its own tag, then the rest's, cover the addresses from element i on |
| ObjectLayout.ElementFits | src/utils/object.tsx:213-217 | element i lies inside the array, and its bytes are exactly its size |
| ObjectLayout.ElementLayout | src/utils/object.tsx:211-220 | element i is drawn under its own tag over its own addresses |
| ObjectLayout.ElementLayoutStep | src/utils/object.tsx:207-222 | given the cells of the elements after i, those from element i on cover the addresses from element i on |
| ObjectLayout.ElementsLayout | src/utils/object.tsx:204-224 | elements i.. cover their consecutive addresses, tags under the prefix |
| ObjectLayout.MemberFits | src/utils/object.tsx:172-181 | member k is well formed, its bytes are its size, and it and its padding end inside the structure |
| ObjectLayout.MemberJoin | src/utils/object.tsx:178-197 | a member's cells, its padding and the rest's cells laid side by side cover their joint range |
| ObjectLayout.MemberTurn | src/utils/object.tsx:171-199 | member k's cells, then its padding, then the rest's cells cover the addresses from member k on |
| ObjectLayout.MemberLayout | src/utils/object.tsx:179-185 | member k is drawn under prefix + "." + name over its own addresses |
| ObjectLayout.MemberLayoutStep | src/utils/object.tsx:171-199 | given the cells of the members after k, those from member k on cover the addresses from member k on |
| ObjectLayout.MembersLayout | src/utils/object.tsx:168-202 | members k.. cover the addresses from member k's offset to the structure's end |
| ObjectLayout.HexPairAt | src/utils/object.tsx:227-247 | in a separator-less hex dump, byte i is characters 2i and 2i+1 |
| ObjectLayout.ScalarNibbleAt | src/utils/object.tsx:129-141 | keys 2i and 2i+1 of a scalar's table cell show byte i in hex |
| ObjectLayout.ScalarViewNibbles | src/utils/object.tsx:128-143 | a scalar's table cell shows its address and 2·size keys, keys 2i and 2i+1 being byte i in hex |
| ObjectLayout.RowCountsStep | src/utils/object.tsx:37-88 | a member adds one member row, and a padding row with 2·pad marks only when pad > 0 |
| ObjectLayout.RowsFrom | src/utils/object.tsx:29-90 | from member k on there is one member row per member, and the padding rows show twice the padding bytes in marks |
| ObjectLayout.VisualElementsLength | src/utils/object.tsx:113-117 | from element i on, the array's table view holds length − i element views |
| ObjectLayout.VisualElementAt | src/utils/object.tsx:113-117 | the array's table view lists the element views in index order: view j − i from element i on is element j's |
| ObjectLayout.ArrayViewElements | src/utils/object.tsx:113-117 | an array's table view has exactly `length` element views, element i drawn at address + i·es from bytes [i·es, (i+1)·es) |
| ObjectLayout.StructViewRows | src/utils/object.tsx:22-96 | a well-formed structure's table has one row per member, and its padding rows show 2·(size − member sizes) marks |
| StructExample.CharA | src/utils/object.tsx:264 | the char 0x41 renders as 'A' |
| StructExample.IntOne | src/utils/object.tsx:263-269 | the signed 4-byte little-endian 01 00 00 00 renders as 1 |
| StructExample.TwoMembers | src/utils/object.tsx:279-286 | a two-member structure renders as tag{a, b} |
| StructExample.CharIntPadding | src/utils/object.tsx:31-36 | in {char c @0; int x @4} of size 8, c ends at offset 1 and three padding bytes follow it |
| StructExample.CharIntStruct | src/utils/object.tsx:255-288 | that structure, read little-endian from 41 p1 p2 p3 01 00 00 00, renders as "pair{'A', 1}" for all padding bytes p1, p2, p3 |
| HeapSegmenter.RunLength | src/viz/components/HeapAllocation.tsx:29-33 | a run starting on an untyped byte inside the block is at least one byte long and ends inside the block |
| HeapSegmenter.DrawHeapContents | src/viz/components/HeapAllocation.tsx:15-45 | the cursor loop, with its pending count and flushes, yields exactly the reference scan of [address, address+size) |
| HeapSegmenter.UntypedStep | src/viz/components/HeapAllocation.tsx:31-33 | an untyped byte extends the pending run by one and moves the cursor by one |
| HeapSegmenter.TypedStep | src/viz/components/HeapAllocation.tsx:34-42 | a typed byte flushes the pending run as a gap at curr − cnt of length cnt, emits an initialised object there, and jumps by its size |
| HeapSegmenter.FailureHere | src/viz/components/HeapAllocation.tsx:30-42 | an absent key or a zero-sized type at the cursor ends the drawing with that failure |
| HeapSegmenter.ScanHeadNotGap | src/viz/components/HeapAllocation.tsx:31-38 | the scan from a byte that is not untyped never starts with a gap |
| HeapSegmenter.RunUntyped | src/viz/components/HeapAllocation.tsx:31-33 | every address in a run is untyped |
| HeapSegmenter.RunStops | src/viz/components/HeapAllocation.tsx:29-34 | a run stops at the block's end or at a byte that is not untyped |
| HeapSegmenter.ScanUnfold | src/viz/components/HeapAllocation.tsx:29-43 | a successful scan of a non-empty block is its first segment, at least one byte long, followed by the scan after it |
| HeapSegmenter.ScanBounds | src/viz/components/HeapAllocation.tsx:20-45 | there are no segments exactly when the block is empty; the first starts at the block's start; each is at least one byte long and starts inside the block; a gap never runs past the end |
| HeapSegmenter.ScanContiguous | src/viz/components/HeapAllocation.tsx:29-45 | each segment starts where the previous one ended, and the last ends at the block's end, or past it only when it is an object |
| HeapSegmenter.ScanOrdered | src/viz/components/HeapAllocation.tsx:20-45 | segments never overlap and come in increasing address order |
| HeapSegmenter.ScanCovers | src/viz/components/HeapAllocation.tsx:29 | every address of the block lies in some segment |
| HeapSegmenter.ScanContents | src/viz/components/HeapAllocation.tsx:31-45 | gaps hold only untyped bytes and are never neighbours; an object has the table's type at its address, a positive size, and is marked initialised |
| HeapSegmenter.ScanFailure | src/viz/components/HeapAllocation.tsx:29-42 | the drawing fails only at an address inside the block that is absent from the table, or whose type has size 0 |
| HeapSegmenter.ScanSucceeds | src/viz/components/HeapAllocation.tsx:29-42 | when every address of the block is in the table and every type has a positive size, the loop ends |
| HeapSegmenter.RunFrame | src/viz/components/HeapAllocation.tsx:30-33 | a run does not depend on entries before it or past where it stops |
| HeapSegmenter.ScanFrame | src/viz/components/HeapAllocation.tsx:29-44 | the scan from b does not depend on entries before b |
| HeapSegmenter.ScanStepFrame | src/viz/components/HeapAllocation.tsx:30-42 | one step reads only the entry at the cursor, and for a gap the run's entries |
| HeapSegmenter.InteriorUnexamined | src/viz/components/HeapAllocation.tsx:42 | changing the table strictly inside a drawn object does not change the drawing |
| Anomalies.JsRem | src/viz/components/RuntimeObject.tsx:46 | JavaScript's remainder equals the mathematical one for non-negative dividends and is never positive for negative ones |
| Anomalies.NullIsNaN | src/viz/components/RuntimeObject.tsx:39 | parseInt("NULL", 16) is NaN |
| Anomalies.NonPointersUnflagged | src/viz/components/RuntimeObject.tsx:36-38 | a non-pointer is never flagged, whatever its text |
| Anomalies.PointerFlagsOfAddress | src/viz/components/RuntimeObject.tsx:36-48 | a NULL pointer is never flagged; otherwise, with a the displayed address, it is misaligned exactly when the required alignment is positive and does not divide a, and points to unallocated memory exactly when a ≠ 0, a runtime view exists and a is not in its table |
| Anomalies.RuntimeTooltipPrecedence | src/viz/components/RuntimeObject.tsx:50-61 | flagged exactly when misaligned, uninitialised or pointing to unallocated memory; the tooltip names "uninitialized", then "unaligned pointer", then "pointer to unallocated memory", and never "unknown error" |
| Anomalies.TemporaryTooltipPrecedence | src/viz/components/TemporaryObject.tsx:47-56 | flagged exactly when misaligned or pointing to unallocated memory, only pointers are flagged, and misalignment is named first |
| Anomalies.TemporaryMatchesInitializedRuntime | src/viz/components/TemporaryObject.tsx:33-47 | a temporary gets the same flags and tooltip as an initialised runtime object of the same type and bytes |
| Anomalies.NonPointerUntagged | src/viz/components/TemporaryObject.tsx:70-75 | a non-pointer temporary carries neither the ptr-from class nor a data-address, and is never flagged |
| Anomalies.PointerTag | src/viz/components/TemporaryObject.tsx:70-75 | a pointer temporary is a ptr-from whose data-address is "NULL" for 0 and otherwise the id of the byte cell at its address, which parses back to it below 16^8 |
| AgendaView.MarkCount | src/viz/Agenda.tsx:28-83 | the number of Marks in a list is at most its length |
| AgendaView.PrefixStep | src/viz/Agenda.tsx:60-83 | only a Mark increments the count; AST nodes and other instructions leave it unchanged |
| AgendaView.DrawAgenda | src/viz/Agenda.tsx:39-111 | no agenda gives the placeholder; otherwise there are as many rows as items, and item k's row, fixed by the Marks before it, is at position n−1−k |
| AgendaView.MarkCountMonotone | src/viz/Agenda.tsx:83 | the count over a prefix never decreases as the prefix grows |
| AgendaView.MarkNumbersIncrease | src/viz/Agenda.tsx:83-94 | of two Marks, the earlier gets the smaller number |
| AgendaView.MarkNumbersOnto | src/viz/Agenda.tsx:92-94 | every number from 1 to the number of Marks is some Mark's class: Marks are numbered 1, 2, … without gaps |
| AgendaView.CountWithoutMarks | src/viz/Agenda.tsx:83 | with no Mark between two positions, the count does not change between them |
| AgendaView.ReturnTagsPrecedingMark | src/viz/Agenda.tsx:95-103 | a Return's data-mark is the number of the closest Mark before it, and it shares that Mark's colour |
| AgendaView.ReturnWithoutMark | src/viz/Agenda.tsx:98 | a Return with no Mark before it has data-mark 0 |
| AgendaView.Decorations | src/viz/Agenda.tsx:92-103 | only Marks and Returns are coloured, from a non-empty palette, with the entry at their number modulo its length; only Marks carry a mark class, only Returns a data-mark and the return class |
| AgendaView.LvalueHighlight | src/viz/Agenda.tsx:59-96 | row k is highlighted as an lvalue exactly when the flags are given and flag k is set |
| AgendaView.LastItemFirst | src/viz/Agenda.tsx:58-111 | the most recently scheduled item comes first and is the only row with the last-item highlight |

## Left out

- The pointer-edge overlay and the stepping timeline: no code for either is part of this model.
- JSX markup, styling and the React, Bootstrap and CodeMirror plumbing. The model keeps only what the code computes for a view: texts, cells, addresses, classes, data attributes and colours. What ASTNode and Instruction draw inside an agenda row is not part of this model.
- Context values (`useContext`) and props: the endianness and the runtime view (context values) and the palette (the `colors` prop of `Agenda`) become parameters. The runtime view's effective-type table becomes a map, or its key set for the anomaly flags.
- `bytesToBigint` belongs to the interpreter library and is not part of this model. `CTypes.BytesToBigint` states the behaviour assumed of it: an unsigned or two's-complement reading in the given byte order.
- `SHRT_ALIGN` comes from the interpreter library; the model assumes it is 2, the alignment of a C `short`.
- `getTypeName` and the type predicates (`isPointer`, `isArray`, …) belong to the interpreter library. The type descriptor is a closed datatype with those tests folded into its variants. Type names in the table view are not modelled.
- `drawHeapContents` builds each object with the library's `RuntimeObject` constructor over `rt.memory`. A segment records the object's type, address and initialised flag, and the memory bytes are not modelled. A gap's drawing is `drawUninitBytes(curr − cnt, cnt)`, whose cells `ObjectLayout.UninitCells` describes.
- The HeapAllocation component around `drawHeapContents`, the `Tooltip` objects (only their titles are modelled) and the rest of the two object components' markup.
- ObjectView.ScalarText: pointer and char values are taken as exact integers. JavaScript converts them with `Number(n)`, which rounds values above 2^53 before `toString(16)` or `fromCharCode`.
- ObjectView.EncodeUri: `encodeURI` is modelled for one UTF-16 code unit, the only input `String.fromCharCode` gives it.
- JsText.ParseIntHex: leading white space is not skipped, since no string handed to it here starts with any.
- Anomalies.PointerFlagsOfAddress and Anomalies.PointerTag: stated for unsigned pointers, as the interpreter's pointer types are. For a signed pointer type the flags and the tag are still computed; only these two lemmas' statements are limited.
- ObjectView.Display: a non-empty array of zero-sized elements is a result (`Diverges`). In the front end, `displayValue`'s loop over the array's bytes never advances and never ends. A well-formed type has no such array.
- HeapSegmenter.DrawHeapContents: an absent key and a zero-sized type are results (`MissingEntry`, `NoProgress`). In the front end, the first throws while rendering and the second never terminates.
- `getErrorMessage`, `isVisible`, `randomColor`, `asArrayBuffer` and the CodeMirror highlight fields of both utils files: browser, asynchronous or random plumbing.
- The early prototype views under `src/` and the thin list renderers (stack, stash, text, heap key list, function designators): they only map lists or print JSON.
