# Model of the protocol and data-format core of steamclient

The library talks to Steam's connection managers. This project models, in Dafny, the parts of it that carry the
most logic, and proves what they are for:

- **The JSON engine** (`include/steamclient/external/ctljson.hpp`). Its ordered map is a red-black tree with parent
  links and cached ends (`rb_shape`, `rb_balance`, `rb_focus`, `rb_search`, `nemap`); objects pair that tree with a
  byte buffer that remembers key order (`order_buffer`, `json_object`); `runs` states both for whole runs. Strings,
  numbers, the parser, the printer and their round trip are in `json_string`, `json_number`, `json_text`,
  `json_parse`, `json_roundtrip`, strings kept as 16-bit units in `utf16`. Apart from all of these, `json_spelling` and
  `json_grammar` write down strings and texts by RFC 8259 in literal octets and compare parser and printer with them;
  `json_errors` says what each error code means. The exact decimal conversion of binary numbers is in `digits`,
  `decimal` and `decimal_text`, and `decimal_value` reads a decimal text as a number.
- **Transport and session**: framing, write queue and reader (`tcp`), splitting of Multi messages (`multi`), the client with
  its handlers (`session`), what it answers to each frame (`replies`), and its runs against a peer while both switch to
  encrypted frames (`peer`).
- **The VDF codecs**: text parser and printer (`vdf_text`, `vdf_tokens`, `vdf_print`), which trees survive both
  (`vdf_exact`), binary parser (`vdf_bin`) and the buffers it takes (`vdf_bin_exact`).

Facts about sequences and numbers that several modules share are in `basics`.

How to read it:

- Tree nodes are heap objects linked by pointers, as in the source. Ghost values `Tree` and `Path` say what the
  pointers stand for: a path is the way from a node up to the root, a tree what hangs below it. `NeMap.Valid` is the
  full invariant: key order, black root, no red node with a red child, equal black heights, parent links, leftmost,
  rightmost, node count, and agreement with the ghost map `contents`. Mirrored left and right branches of the source
  are written once, with a `Side`.
- Buffers and strings that the source edits in place are sequences that methods reassign step by step. Each method
  is proved against a function of its inputs, and the lemmas state what that function means.
- Bit operations on digits, code units and lengths are written as division and remainder.

Facts about the code that the proofs brought out:

- The walks over the order buffer that remove, move to the end, print and list keys stop before a trailing empty key.
  So `erase` leaves an empty key that is the last in the buffer, and `push_back` writes it twice, and these are the only
  cases in which buffer and tree part (`OrderBuffer.WalkIsRemoval`, `JsonObject.Erase`, `JsonObject.PushBack`,
  `Runs.ApplyObject`); such a key is also not printed. The parser refuses empty keys, so objects that come from text are
  not affected.
- The length of a key is cut to 32 bits: it is read back right if and only if the key is shorter than 2^32 bytes
  (`OrderBuffer.LengthKept`). An operation that sets down a longer key still does its work on tree and list, and leaves
  a buffer that cannot be walked any more (`Runs.ApplyObject`).
- `parse` reports success, with no value, for a blank text and for a lone minus sign, and for no other
  (`JsonRoundTrip.AcceptsNothing`). It does not look at what follows the value, and commas between elements may be
  missing (`JsonGrammar.MissingComma`).
- Of the texts of RFC 8259 it refuses two kinds: those with an empty name, and those with whitespace directly behind
  `null`, `true` or `false` inside an array or object, as in `[true ]` (`JsonGrammar.GrammarAccepted`).
- A high surrogate by number, plain bytes, and a low surrogate by number are read as one pair, and the plain bytes are
  lost; nothing else goes wrong with the strings it accepts (`JsonSpelling.SpellingRead`, `JsonSpelling.PairAcross`).
- The digit count that should limit the decimal expansion is never advanced, so the expansion is always exact.
- A TCP message of 2^32 bytes or more would be framed with its length cut (`Tcp.FrameCarries`).
- VDF text is printed without escaping, so a tree comes back if and only if no key and no string in it holds a quote
  or a backslash (`VdfExact.PrintAndParse`), while an unclosed string at the end of a text is accepted.
- Binary VDF may break off: of nested objects at the very end of a buffer, any number of end bytes may be missing
  (`VdfBinExact.TakenExactly`).
- Decryption of an incoming frame happens outside the block that catches exceptions; parsing and handling inside.

## Model

| member | source | states |
|---|---|---|
| `Keys.Compare` | include/steamclient/external/ctljson.hpp:460-470 | 0 for equal keys only; with the lemmas below, the dictionary order of byte strings |
| `Keys.CompareFlips` | include/steamclient/external/ctljson.hpp:460-470 | for any two keys exactly one of less, equal, greater holds |
| `Keys.LessTransitive` | include/steamclient/external/ctljson.hpp:460-470 | the order of keys is transitive |
| `Keys.LessIs` | include/steamclient/external/ctljson.hpp:460-470 | a key is less exactly when it is a proper prefix, or has the smaller byte where the two first differ |
| `RbShape.OrderPlug` | include/steamclient/external/ctljson.hpp:1324-1362 | a subtree put back at its place gives the in-order sequence, node set and size of the whole tree |
| `RbShape.RotationKeeps` | include/steamclient/external/ctljson.hpp:1324-1362 | turning a subtree either way, at any place, leaves the in-order sequence of the whole tree as it was |
| `RbShape.ShowsPlug` | include/steamclient/external/ctljson.hpp:1324-1362 | pointers, parent links and colours show a tree exactly when they show the path to a node and the subtree at it |
| `RbBalance.InsertRecolours` | include/steamclient/external/ctljson.hpp:1286-1290 | a red uncle: after recolouring, the grandparent is the only place where two reds may meet; black heights stay |
| `RbBalance.InsertLifts` | include/steamclient/external/ctljson.hpp:1291-1299 | a black uncle: after the rotation no red node has a red child and black heights are as before |
| `RbBalance.RisingStops` | include/steamclient/external/ctljson.hpp:1278-1319 | when the insertion loop ends and the root is blackened, the tree is red-black |
| `RbBalance.DeleteRedSibling` | include/steamclient/external/ctljson.hpp:1491-1496 | a red sibling: the turn keeps every black height and gives the doubly black place a black sibling |
| `RbBalance.DeleteRecolours` | include/steamclient/external/ctljson.hpp:1498-1502 | a black sibling without red children: the missing black moves to the parent |
| `RbBalance.DeleteTurns` | include/steamclient/external/ctljson.hpp:1504-1509 | a red child on the near side of the sibling is turned to the far side; nothing else changes |
| `RbBalance.DeleteLifts` | include/steamclient/external/ctljson.hpp:1511-1517 | a red child on the far side: after the rotation no black is missing any more |
| `RbBalance.SunkenStops` | include/steamclient/external/ctljson.hpp:1486-1553 | when the deletion loop ends and the place is blackened, the tree is red-black |
| `RbBalance.UnlinkBalance` | include/steamclient/external/ctljson.hpp:1419-1442 | taking out a node with at most one child leaves a red-black tree, or one black missing at that place |
| `RbBalance.SpliceBalance` | include/steamclient/external/ctljson.hpp:1459-1484 | a successor that takes the place and colour of a node leaves a red-black tree, or one black missing where it was |
| `RbBalance.HeightIsLogarithmic` | include/steamclient/external/ctljson.hpp:1207-1222 | 2 to the height of a red-black tree with n nodes is at most (n+1) squared |
| `RbFocus.FocusRotates` | include/steamclient/external/ctljson.hpp:1324-1362 | the pointer writes of a rotation, as a whole, turn the shown tree and leave all other links |
| `RbFocus.FocusLinks` | include/steamclient/external/ctljson.hpp:1267-1276 | a new red node in an empty slot is shown as a leaf there |
| `RbFocus.FocusUnlinks` | include/steamclient/external/ctljson.hpp:1432-1442 | a node with one child or none is cut out of the shown tree |
| `RbFocus.FocusSplices` | include/steamclient/external/ctljson.hpp:1459-1484 | the relinking of a successor into a node with two children shows the tree with that node replaced |
| `RbSearch.SearchDown` | include/steamclient/external/ctljson.hpp:1234-1245 | going left or right by a comparison keeps the key between all nodes before and all nodes behind |
| `RbSearch.InsertSorted` | include/steamclient/external/ctljson.hpp:1267-1276 | a node put into the slot the search ended at keeps the strict key order |
| `RbSearch.RemoveSorted` | include/steamclient/external/ctljson.hpp:1409-1562 | a sequence in strict key order stays so without one node |
| `RbSearch.SpliceOrder` | include/steamclient/external/ctljson.hpp:1459-1484 | the two-child splice takes exactly one node out of the in-order sequence |
| `RbSearch.PlaceOf` | include/steamclient/external/ctljson.hpp:1088-1105 | where a node stands in the in-order sequence |
| `NeMaps.NeMap.RotateLeft` | include/steamclient/external/ctljson.hpp:1324-1342 | which fields the rotation writes, and with what: the links of the node, its right child and the parent |
| `NeMaps.NeMap.RotateRight` | include/steamclient/external/ctljson.hpp:1344-1362 | the mirror image |
| `NeMaps.NeMap.Rotate` | include/steamclient/external/ctljson.hpp:1324-1362 | a rotation at any place of the tree is the turn of that subtree, the rest unchanged |
| `NeMaps.NeMap.InsertStep` | include/steamclient/external/ctljson.hpp:1280-1318 | one round of the insertion loop, for both sides: either done, or the same invariant two levels up |
| `NeMaps.NeMap.InsertFixup` | include/steamclient/external/ctljson.hpp:1278-1319 | from a red node hung into a red-black tree to a red-black tree with the same in-order sequence |
| `NeMaps.NeMap.Find` | include/steamclient/external/ctljson.hpp:1207-1222 | null exactly when the key is absent, else the node with the key and its value; never more rounds than the tree is high, the one that finds the key included |
| `NeMaps.NeMap.Descend` | include/steamclient/external/ctljson.hpp:1230-1245 | the node with the key, or the slot where it belongs and the last node passed; never more rounds than the tree is high, the one that finds the key included |
| `NeMaps.NeMap.InsertBelow` | include/steamclient/external/ctljson.hpp:1267-1321 | a new binding in a non-empty map: full invariant, leftmost and rightmost included, one node and one binding more |
| `NeMaps.NeMap.InsertFirst` | include/steamclient/external/ctljson.hpp:1257-1265 | the first binding of an empty map |
| `NeMaps.NeMap.FindOrInsert` | include/steamclient/external/ctljson.hpp:1230-1322 | full invariant kept; exactly one blank binding added when the key is absent, nothing changed when it is present |
| `NeMaps.NeMap.DeleteBlackSibling` | include/steamclient/external/ctljson.hpp:1498-1518 | the three cases of a black sibling, for both sides |
| `NeMaps.NeMap.DeleteStep` | include/steamclient/external/ctljson.hpp:1488-1550 | one round of the deletion loop: done, or the same invariant one level up |
| `NeMaps.NeMap.DeleteFixup` | include/steamclient/external/ctljson.hpp:1486-1553 | from one missing black anywhere to a red-black tree with the same in-order sequence |
| `NeMaps.NeMap.Extreme` | include/steamclient/external/ctljson.hpp:1424-1426 | the loop down one side of a subtree ends at its first, or last, node in key order |
| `NeMaps.NeMap.Unlink` | include/steamclient/external/ctljson.hpp:1432-1442 | a node with at most one child leaves the tree; child and parent are joined |
| `NeMaps.NeMap.MoveEnds` | include/steamclient/external/ctljson.hpp:1444-1458 | leftmost and rightmost are right again after the node is gone |
| `NeMaps.NeMap.TakeChildren` | include/steamclient/external/ctljson.hpp:1459-1471 | the successor takes over both children, and its own child its old place, whether it was the right child or deeper |
| `NeMaps.NeMap.TakeSlot` | include/steamclient/external/ctljson.hpp:1473-1481 | the successor takes the slot and the colour of the node, which is out |
| `NeMaps.NeMap.Splice` | include/steamclient/external/ctljson.hpp:1459-1482 | both together: all the links that the two-child case changes, and no other |
| `NeMaps.NeMap.TakeOut` | include/steamclient/external/ctljson.hpp:1409-1553 | one node leaves the tree through either case, with leftmost, rightmost and colours in order |
| `NeMaps.NeMap.EraseNode` | include/steamclient/external/ctljson.hpp:1409-1562 | deleting any node keeps the full invariant and removes exactly its binding |
| `NeMaps.NeMap.Erase` | include/steamclient/external/ctljson.hpp:1188-1203 | erase by key: the binding is gone, and nothing else; an absent key changes nothing |
| `NeMaps.NeMap.Clear` | include/steamclient/external/ctljson.hpp:1162-1165 | no node and no binding left |
| `NeMaps.NeMap.Begin` | include/steamclient/external/ctljson.hpp:1182-1184 | the first node in key order, or null |
| `NeMaps.NeMap.Climb` | include/steamclient/external/ctljson.hpp:1094-1101 | climbing ends at the first node behind the subtree, or at null |
| `NeMaps.NeMap.Next` | include/steamclient/external/ctljson.hpp:1088-1105 | from the i-th node in key order to the next, or to the end after the last |
| `NeMaps.NeMap.Walk` | include/steamclient/external/ctljson.hpp:1182-1186 | from begin to end: every key once, in dictionary order, each with its value, and no other |
| `NeMaps.NeMap.Count` | include/steamclient/external/ctljson.hpp:1160 | size() is the number of bindings |
| `NeMaps.NeMap.LookupBound` | include/steamclient/external/ctljson.hpp:1207-1222 | with Find and Descend: every lookup makes at most 2*log2(size+1) rounds |
| `NeMaps.NeMap.CopyKids` | include/steamclient/external/ctljson.hpp:1380-1389 | both subtrees copied below a node, apart from each other |
| `NeMaps.NeMap.CopyNodes` | include/steamclient/external/ctljson.hpp:1364-1395 | a fresh subtree of the same shape, colours, keys and values, with the cached ends mapped along |
| `NeMaps.NeMap.CopyFrom` | include/steamclient/external/ctljson.hpp:1167-1174 | the map has the contents of the other one, valid, and shares no node with it |
| `NeMaps.NeMap.SetValue` | include/steamclient/external/ctljson.hpp:1176-1180 | writing through the reference operator[] returns changes that one binding |
| `OrderBuffer.LittleEndian` | include/steamclient/external/ctljson.hpp:2290-2308 | a number is stored modulo 2^32 in four bytes, the lowest first |
| `OrderBuffer.RecordIs` | include/steamclient/external/ctljson.hpp:2290-2308 | a record in bytes: the length modulo 2^32 and the key |
| `OrderBuffer.LengthKept` | include/steamclient/external/ctljson.hpp:2290-2314 | the length read back from a record is the length of the key mod 2^32, hence that length if and only if it is below 2^32 |
| `OrderBuffer.RecordAt` | include/steamclient/external/ctljson.hpp:2290-2314 | at the start of record j the buffer holds the length and bytes of key j, and the next record follows |
| `OrderBuffer.CutRecord` | include/steamclient/external/ctljson.hpp:706-719 | cutting a record out of the buffer encodes the list without that key |
| `OrderBuffer.InsertRecord` | include/steamclient/external/ctljson.hpp:721-726 | inserting a record at a record boundary encodes the list with that key there |
| `OrderBuffer.WalkGuard` | include/steamclient/external/ctljson.hpp:2931 | the loop guard holds exactly while a record other than a trailing empty key follows |
| `OrderBuffer.ReachedGuard` | include/steamclient/external/ctljson.hpp:2902-2903 | the guard of the removing, listing and printing walks holds exactly before the keys other than a trailing empty one |
| `OrderBuffer.WalkIsRemoval` | include/steamclient/external/ctljson.hpp:2930-2946 | what the removal walk leaves; it removes the key if and only if the key is not an empty one standing last |
| `OrderBuffer.WithoutAt` | include/steamclient/external/ctljson.hpp:2930-2946 | removing a key of a duplicate-free list is cutting it at its position |
| `OrderBuffer.PlaceBeforeAt` | include/steamclient/external/ctljson.hpp:2060-2065 | placing before a key of a duplicate-free list is inserting at its position |
| `JsonObjects.MovedBefore` | include/steamclient/external/ctljson.hpp:2022-2071 | after insert the key stands directly before inspos, all other keys in their old order, no duplicate |
| `JsonObjects.MovedToEnd` | include/steamclient/external/ctljson.hpp:2074-2111 | after push_back the key is last, all other keys in their old order, no duplicate |
| `JsonObjects.PutEntries` | include/steamclient/external/ctljson.hpp:2646-2666 | members kept in tree and buffer are an association list: an equal key is replaced in place, a new one appended |
| `JsonObjects.SameAt` | include/steamclient/external/ctljson.hpp:2936-2942 | the byte loop says whether the key stands at that place |
| `JsonObjects.JsonObject.constructor` | include/steamclient/external/ctljson.hpp:1993-2004 | an empty object satisfies the invariant |
| `JsonObjects.JsonObject.RemoveOrderKey` | include/steamclient/external/ctljson.hpp:2930-2946 | what the walk leaves in the buffer, for any keys |
| `JsonObjects.JsonObject.AppendKeyInfo` | include/steamclient/external/ctljson.hpp:2290-2308 | the buffer encodes the list with the key at the end |
| `JsonObjects.JsonObject.Access` | include/steamclient/external/ctljson.hpp:1989-2006 | the member with the key; absent, it is appended to list and map with a blank value; the invariant stays if and only if the key is shorter than 2^32 bytes |
| `JsonObjects.JsonObject.Erase` | include/steamclient/external/ctljson.hpp:2008-2019 | the map loses exactly that key, and the result tells whether it was there; so does the list, and the invariant stays, if and only if the key is not an empty one standing last |
| `JsonObjects.JsonObject.OrderToEnd` | include/steamclient/external/ctljson.hpp:2080-2103 | the walk of push_back, with its shortcut for a key already last: the key moves to the end, an empty one standing last is doubled |
| `JsonObjects.JsonObject.PushBack` | include/steamclient/external/ctljson.hpp:2074-2111 | the key moves to or is put at the end and gets the value, all else unchanged; the invariant stays if and only if the key is shorter than 2^32 bytes and not an empty one standing last |
| `JsonObjects.JsonObject.FindBoth` | include/steamclient/external/ctljson.hpp:2025-2043 | the byte positions of both keys, each the size of the buffer exactly when the key is absent |
| `JsonObjects.JsonObject.PlaceOf` | include/steamclient/external/ctljson.hpp:2052-2059 | the byte position of inspos moves back by the erased record exactly when that stood before it; adjacent keys need no edit |
| `JsonObjects.JsonObject.OrderBefore` | include/steamclient/external/ctljson.hpp:2046-2066 | the erase, offset correction and insertion on bytes are remove and place before on the list |
| `JsonObjects.JsonObject.Insert` | include/steamclient/external/ctljson.hpp:2022-2071 | succeeds exactly when the keys differ and inspos is present; then newkey stands before inspos with the value, else nothing changes; the invariant stays if and only if no key of 2^32 bytes or more was set down |
| `JsonObjects.JsonObject.Empty` | include/steamclient/external/ctljson.hpp:2113-2119 | list and map are empty |
| `JsonObjects.JsonObject.AllKeys` | include/steamclient/external/ctljson.hpp:2216-2252 | an element for every member, holding the keys in order; only the one for a trailing empty key is not set |
| `JsonObjects.JsonObject.MemberAt` | include/steamclient/external/ctljson.hpp:2904-2911 | one round of the printing walk: the key at that place, found in the tree with its value |
| `JsonObjects.JsonObject.Members` | include/steamclient/external/ctljson.hpp:2902-2912 | the walk meets every member once, in key order, with its value, but for a trailing empty key |
| `JsonObjects.JsonObject.Slot` | include/steamclient/external/ctljson.hpp:2656-2666 | a new key is appended, an equal one keeps its place; either way its value is blank; the invariant stays if and only if the key is shorter than 2^32 bytes |
| `JsonObjects.JsonObject.Fill` | include/steamclient/external/ctljson.hpp:2675 | filling the slot changes that value only |
| `Runs.Pair.Run` | include/steamclient/external/ctljson.hpp:1160-1228 | every run of lookup, operator[], assignment, erase, clear and copy on two maps gives what the same run on two finite maps gives, results included |
| `Runs.Pair.Apply` | include/steamclient/external/ctljson.hpp:1160-1228 | each single operation does so, and the two maps stay apart |
| `Runs.RunObject` | include/steamclient/external/ctljson.hpp:1989-2125 | every run of object operations from an empty object that never erases or pushes back an empty key standing last, nor sets down a key of 2^32 bytes or more, gives the ordered map that a list and a finite map give, results, keys and members included |
| `Runs.ApplyObject` | include/steamclient/external/ctljson.hpp:1989-2125 | one operation on any valid object, whatever its keys, gives that if and only if it is no erase or push_back of an empty key standing last, and keeps the invariant if and only if moreover it sets down no key of 2^32 bytes or more |
| `Runs.TrailingEmptyKey` | include/steamclient/external/ctljson.hpp:1989-2019 | the smallest case: an empty key put into a new object and erased is gone from the tree and still in the buffer |
| `JsonStrings.SkipSpaces` | include/steamclient/external/ctljson.hpp:2279-2287 | the first position that is no JSON space |
| `JsonStrings.EscapeOnto` | include/steamclient/external/ctljson.hpp:2975-3000 | the in-place widening appends exactly the escaped text |
| `JsonStrings.EscapeIsClean` | include/steamclient/external/ctljson.hpp:2984-2998 | escaped text has no control byte, and a quote only behind a backslash |
| `JsonStrings.FourHexDigits` | include/steamclient/external/ctljson.hpp:2948-2970 | the value of four hexadecimal digits, the first other byte, or the end of the text |
| `JsonStrings.WritePoint` | include/steamclient/external/ctljson.hpp:2375-2416 | the bytes appended and overwritten are the UTF-8 of the code point; a low surrogate turns three octets into four |
| `JsonStrings.FourOctets` | include/steamclient/external/ctljson.hpp:3032-3041 | four octets for every supplementary code point |
| `JsonStrings.ParseString` | include/steamclient/external/ctljson.hpp:2323-2440 | runs and overwriting are byte-by-byte reading: result, text and position of the reference reader, for every input |
| `JsonStrings.Unescape` | include/steamclient/external/ctljson.hpp:2323-2440 | the reference reader stays inside the text and moves on |
| `JsonStrings.UnescapeEscape` | include/steamclient/external/ctljson.hpp:2975-3000 | every byte string, escaped and quoted, is read back as itself |
| `JsonNumbers.DigitsEnd` | include/steamclient/external/ctljson.hpp:2752-2754 | the run of digits and no more |
| `JsonNumbers.ReadUnsigned` | include/steamclient/external/ctljson.hpp:2744-2791 | where reading a number stops and with which code, for every input |
| `JsonNumbers.ReadIsNumber` | include/steamclient/external/ctljson.hpp:2738-2799 | whatever is accepted as a number is one by section 6 of RFC 8259 |
| `JsonNumbers.NumberIsRead` | include/steamclient/external/ctljson.hpp:2738-2799 | every number of section 6 of RFC 8259 is read to its end when a comma, a closing bracket or the end follows |
| `JsonText.PrintOnto` | include/steamclient/external/ctljson.hpp:2848-2928 | the printer with its overwritten last comma writes the compact text |
| `JsonText.PrintElems` | include/steamclient/external/ctljson.hpp:2870-2885 | elements between commas, none after the last, also for an empty array |
| `JsonText.PrintMembers` | include/steamclient/external/ctljson.hpp:2886-2925 | members between commas, none after the last, also for an empty object |
| `JsonText.PrintNext` | include/steamclient/external/ctljson.hpp:2904-2917 | one round of it: the key at that place with the value found in the tree, and a comma |
| `JsonText.PrintObject` | include/steamclient/external/ctljson.hpp:2886-2925 | on buffer and tree: one loop over the order buffer with a lookup each round writes the compact text of the members in key order |
| `JsonText.ValueAt` | include/steamclient/external/ctljson.hpp:2596-2805 | the reference parser stays inside the text and moves on when it accepts something |
| `JsonSpelling.Utf8Is` | include/steamclient/external/ctljson.hpp:2388-2414 | the octets written for a code point are those of the table in section 3 of RFC 3629 |
| `JsonSpelling.FourOctetsIs` | include/steamclient/external/ctljson.hpp:2375-2387 | so are the four octets of a surrogate pair |
| `JsonSpelling.OctetsUnique` | include/steamclient/external/ctljson.hpp:2375-2414 | that table leaves no choice |
| `JsonSpelling.SpellingRead` | include/steamclient/external/ctljson.hpp:2323-2440 | a string in pieces by section 7 of RFC 8259, in literal codes (plain bytes, the eight two-character escapes, four digits of either case, surrogate pairs), or in pieces that are kept as they stand: read as what the pieces stand for if and only if no low surrogate follows a high one with nothing but plain bytes between |
| `JsonSpelling.StringAccepted` | include/steamclient/external/ctljson.hpp:2323-2440 | a string is accepted if and only if it is made of such pieces up to a quotation mark |
| `JsonSpelling.ProperWhole` | include/steamclient/external/ctljson.hpp:2323-2440 | what RFC 8259 allows, with surrogates in pairs, meets the condition |
| `JsonSpelling.PairAcross` | include/steamclient/external/ctljson.hpp:2375-2387 | the smallest case that does not: the plain byte between two surrogates is lost |
| `JsonSpelling.SpellingRead16` | include/steamclient/external/ctljson.hpp:2444-2593 | kept as 16-bit units, every such spelling is read as the units it stands for |
| `JsonSpelling.WideIs` | include/steamclient/external/ctljson.hpp:2516-2588 | octets from 0x80 on stand for their unit or pair by the same table |
| `JsonParse.UnescapeShrinks` | include/steamclient/external/ctljson.hpp:2323-2440 | a parsed string is never longer than its text |
| `JsonParse.ShortText` | include/steamclient/external/ctljson.hpp:2323-2440 | in a text below 2^32 bytes every string is short enough for the 32-bit length of a key |
| `JsonParse.ReadValue` | include/steamclient/external/ctljson.hpp:2596-2805 | the parser with its loops and in-place objects: code, position and tree of the reference parser, for every text whose strings are below 2^32 bytes |
| `JsonParse.ReadElems` | include/steamclient/external/ctljson.hpp:2600-2625 | the array loop, commas optional |
| `JsonParse.ReadMember` | include/steamclient/external/ctljson.hpp:2646-2680 | one member: key, slot, colon, value, comma, with every error exit |
| `JsonParse.ReadMembers` | include/steamclient/external/ctljson.hpp:2626-2687 | the object loop on tree and order buffer |
| `JsonParse.ReadNumber` | include/steamclient/external/ctljson.hpp:2734-2804 | the number branch, with what it leaves in the node |
| `JsonParse.ReadLiteral` | include/steamclient/external/ctljson.hpp:2698-2733 | true, false and null letter by letter |
| `JsonParse.Parse` | include/steamclient/external/ctljson.hpp:1776-1789 | leading spaces skipped; error position 0 on success |
| `JsonRoundTrip.ValueBack` | include/steamclient/external/ctljson.hpp:2596-2805 | every printable value is read back from its text wherever that stands, before a comma, a closing bracket or the end |
| `JsonRoundTrip.ElemsBack` | include/steamclient/external/ctljson.hpp:2600-2625 | so are the elements of an array |
| `JsonRoundTrip.MembersBack` | include/steamclient/external/ctljson.hpp:2626-2687 | so are the members of an object, in order |
| `JsonRoundTrip.RoundTrip` | include/steamclient/external/ctljson.hpp:2848-2928 | printing any printable tree and parsing the text gives the same tree with the same key order |
| `JsonRoundTrip.ValueSound` | include/steamclient/external/ctljson.hpp:2596-2805 | whatever is accepted is a printable value, or nothing at all |
| `JsonRoundTrip.AcceptsNothing` | include/steamclient/external/ctljson.hpp:2734-2805 | a text is accepted without a value exactly when it is blank or a lone minus sign |
| `JsonRoundTrip.Normalizes` | include/steamclient/external/ctljson.hpp:2596-2805 | for every accepted text with a value: printing the value and parsing again gives that value |
| `JsonRoundTrip.NumbersSetRoundTrip` | include/steamclient/external/ctljson.hpp:1829-1841 | the text set_num stores is always a number that printing and parsing keep |
| `JsonRoundTrip.Distinguishes` | include/steamclient/external/ctljson.hpp:2848-2928 | different printable values have different texts |
| `JsonGrammar.PrintedIsJson` | include/steamclient/external/ctljson.hpp:2848-2928 | every printed text is in the grammar of RFC 8259, sections 2 to 7, written out in octets; in its compact form, with that value |
| `JsonGrammar.DocRead` | include/steamclient/external/ctljson.hpp:2596-2805 | a value of the grammar, with whitespace anywhere, is read as what it stands for or refused |
| `JsonGrammar.GrammarAccepted` | include/steamclient/external/ctljson.hpp:2596-2805 | a text of the grammar is accepted if and only if no name is empty and no whitespace stands directly behind null, true or false inside brackets; what is read is what it stands for, of equal names the last |
| `JsonGrammar.MissingComma` | include/steamclient/external/ctljson.hpp:2600-2625 | outside the grammar: an array with a comma missing is accepted |
| `JsonGrammar.TrailingComma` | include/steamclient/external/ctljson.hpp:2600-2625 | so is one with a comma behind the last element |
| `JsonGrammar.PieceOfIs` | include/steamclient/external/ctljson.hpp:2984-2998 | the printer spells control bytes by number, quotation mark and reverse solidus behind a reverse solidus, and all else as it is |
| `JsonGrammar.UnitsSpelled` | include/steamclient/external/ctljson.hpp:3004-3064 | strings kept as units are printed that way too, and in octets of the table from 0x80 on |
| `JsonGrammar.NumeralIs` | include/steamclient/external/ctljson.hpp:2738-2799 | a number put together from its parts is one by the grammar of numbers |
| `JsonErrors.ErrorTells` | include/steamclient/external/ctljson.hpp:2596-2805 | each error code says what is missing at the position reported with it: end of the text, name, colon, digit, or letter of a word |
| `Utf16Strings.EscapeUnits` | include/steamclient/external/ctljson.hpp:3004-3064 | the output with its in-place overwriting is: pairs as four octets, lone surrogates and other units from 0x800 on as three |
| `Utf16Strings.EscapeUnit` | include/steamclient/external/ctljson.hpp:3013-3062 | one unit of it |
| `Utf16Strings.DecodeAccepts` | include/steamclient/external/ctljson.hpp:2516-2587 | octets are accepted exactly when they are the text of one unit from 0x80 on or of a surrogate pair, in no longer form, and they give just those units |
| `Utf16Strings.ReadFour` | include/steamclient/external/ctljson.hpp:2553-2583 | the branch for four octets agrees with Decode |
| `Utf16Strings.ReadOctets` | include/steamclient/external/ctljson.hpp:2516-2588 | the branch with its appending and overwriting agrees with Decode |
| `Utf16Strings.ParseUnits` | include/steamclient/external/ctljson.hpp:2444-2593 | the parser agrees with the reference reader for every input |
| `Utf16Strings.PairBack` | include/steamclient/external/ctljson.hpp:2553-2583 | a surrogate pair is read back from its four octets |
| `Utf16Strings.UnitsBack` | include/steamclient/external/ctljson.hpp:2444-2593 | every sequence of 16-bit units is read back from its text, wherever that stands |
| `Utf16Strings.UnitsRoundTrip` | include/steamclient/external/ctljson.hpp:3004-3064 | escaping and parsing any sequence of 16-bit units gives it back |
| `DigitStrings.Mul2` | include/steamclient/external/ctljson.hpp:100-115 | the string denotes twice the number; longer by the carry |
| `DigitStrings.Div2` | include/steamclient/external/ctljson.hpp:117-138 | half the number, or with one more digit five times it; the two flags say which, and whether a leading zero was dropped |
| `DigitStrings.AddDigits` | include/steamclient/external/ctljson.hpp:145-154 | the loop of plus_ |
| `DigitStrings.Plus` | include/steamclient/external/ctljson.hpp:140-155 | the string denotes the sum; longer by the carry |
| `DigitStrings.Round` | include/steamclient/external/ctljson.hpp:157-177 | the leading pos-1 digits, rounded half up by the digit behind them, with the carry that may lengthen them |
| `DigitStrings.Halves` | include/steamclient/external/ctljson.hpp:161-166 | dropping digits with the first dropped one deciding is (n + half) div unit |
| `DecimalExpansion.LeadingPower` | include/steamclient/external/ctljson.hpp:258-269 | the first two loops end with the largest power of two not above the value, in digits, and the exponent of its first digit |
| `DecimalExpansion.RoomLeft` | include/steamclient/external/ctljson.hpp:266-271 | a value of the form k/2^n leaves the mask room: why the loops end |
| `DecimalExpansion.Takes` | include/steamclient/external/ctljson.hpp:274-277 | adding the mask keeps value and digits in balance |
| `DecimalExpansion.MaskShrinks` | include/steamclient/external/ctljson.hpp:271-278 | halving the mask keeps its digits and the alignment |
| `DecimalExpansion.Expand` | include/steamclient/external/ctljson.hpp:255-279 | for every positive value k/2^n the loop ends, and digits and dppos denote exactly the value, with no digit to spare |
| `DecimalValue.LaidOutValue` | include/steamclient/external/ctljson.hpp:376-383 | digits with a point p places from the end, read from the left, are their number divided by 10^p; the text starts with a minus sign exactly when there is one |
| `DecimalText.RoundsDown` | include/steamclient/external/ctljson.hpp:356 | rounding digits away is rounding the value half up |
| `DecimalText.RoundAt` | include/steamclient/external/ctljson.hpp:356 | after round_ the digits are the value rounded half up at p digits, and no needless zero stands before the point |
| `DecimalText.FillPoint` | include/steamclient/external/ctljson.hpp:351-354 | a digit before the point is there |
| `DecimalText.Fit` | include/steamclient/external/ctljson.hpp:358-374 | trailing zeros, cut and padding: exactly the digits to show |
| `DecimalText.ToStringF` | include/steamclient/external/ctljson.hpp:211-386 | style f, any precision: the text is the sign, the digits of the value rounded half up, and exactly the promised digits after the point; read as a number it is within half a unit of the signed value |
| `DecimalText.ShownIsNearest` | include/steamclient/external/ctljson.hpp:350-381 | the number shown is within half a unit of its last rounded digit, half going up |
| `DecimalText.FixedValue` | include/steamclient/external/ctljson.hpp:376-383 | read character by character, the text of n/10^p with its sign has just that value; it starts with a minus sign exactly when there is one, for zero too |
| `DecimalText.ShownValue` | include/steamclient/external/ctljson.hpp:211-386 | so what is shown is off from the signed value by half a unit of the last rounded digit at most |
| `DecimalText.ShownDigits` | include/steamclient/external/ctljson.hpp:350-381 | how many digits are shown: as many as asked for, or, for a negative precision, no needless zero, save one digit kept by a value that is not exact |
| `DecimalText.TrimKeeps` | include/steamclient/external/ctljson.hpp:360-363 | trailing zeros taken off do not change the number, and none is left that could go |
| `DecimalText.DigitsAre` | include/steamclient/external/ctljson.hpp:376-377 | digits with no needless zero above are the digits of the number, so the text is unique |
| `DecimalText.FixedShape` | include/steamclient/external/ctljson.hpp:376-380 | exactly p digits after the point, and no point for p = 0 |
| `DecimalText.FixedChars` | include/steamclient/external/ctljson.hpp:376-380 | nothing but digits, a sign and a point |
| `DecimalText.FixedIsNumber` | include/steamclient/external/ctljson.hpp:350-385 | every text is a number by section 6 of RFC 8259 |
| `DecimalText.Reverse` | include/steamclient/external/ctljson.hpp:90-98 | the text turned round in place |
| `Tcp.Frame` | src/network/connection/tcp.cpp:106-122 | the length mod 2^32 in four bytes, the magic, and the message |
| `Tcp.FrameIs` | src/network/connection/tcp.cpp:106-122 | in bytes: the length modulo 2^32, the lowest first, then VT01, then the message |
| `Tcp.HeaderDecides` | src/network/connection/tcp.cpp:72-87 | eight bytes of header: with VT01 behind the length that many bytes are awaited, else nothing more is read |
| `Tcp.FrameCarries` | src/network/connection/tcp.cpp:72-119 | a message comes out of its own frame whole if and only if it is shorter than 2^32 bytes |
| `Tcp.ReadsFrame` | src/network/connection/tcp.cpp:72-104 | whatever the length, the first length mod 2^32 bytes are read as the message |
| `Tcp.FeedChunks` | src/network/connection/tcp.cpp:72-104 | reading does not depend on how bytes are cut into chunks |
| `Tcp.FeedFrames` | src/network/connection/tcp.cpp:72-119 | the frames of any list of short messages are read back as that list |
| `Tcp.FeedPrefix` | src/network/connection/tcp.cpp:72-104 | from a part of the stream a prefix of the messages is read, and the magic never fails |
| `Tcp.TcpConnection.AsyncSend` | src/network/connection/tcp.cpp:106-128 | the framed message joins the queue; a write is outstanding exactly when the queue is not empty |
| `Tcp.TcpConnection.DoWrite` | src/network/connection/tcp.cpp:130-138 | called only with no write outstanding |
| `Tcp.TcpConnection.WriteDone` | src/network/connection/tcp.cpp:132-137 | the front leaves the queue, the next one is written |
| `Tcp.TcpConnection.WriteSome` | src/network/connection/tcp.cpp:130-138 | bytes leave in any pieces |
| `Tcp.TcpConnection.WireIsFrames` | src/network/connection/tcp.cpp:106-138 | what has left is a prefix of the frames in sending order, and all of them once the queue is empty |
| `Tcp.TcpConnection.HeaderDone` | src/network/connection/tcp.cpp:72-87 | length and magic decide on the body read or the disconnect |
| `Tcp.TcpConnection.CompleteHeader` | src/network/connection/tcp.cpp:72-87 | a header read that has its bytes is followed by the body read, or by none; the stream read so far stays what it was |
| `Tcp.TcpConnection.CompleteBody` | src/network/connection/tcp.cpp:89-100 | a body read that has its bytes hands its frame on, and no read is under way while the handler runs |
| `Tcp.TcpConnection.Receive` | src/network/connection/tcp.cpp:72-104 | bytes that arrive stand behind those not yet read |
| `Tcp.TcpConnection.Arrive` | src/network/connection/tcp.cpp:72-104 | after any chunk, everything that can be read has been |
| `Tcp.Delivery` | src/network/connection/tcp.cpp:72-138 | what the receiver was given is a prefix of what was sent, and all of it once all bytes have arrived |
| `Tcp.Happen` | src/network/connection/tcp.cpp:72-138 | each event keeps that |
| `Tcp.Run` | src/network/connection/tcp.cpp:72-138 | every run of sending, partial writes, completions and arriving chunks delivers the messages in order, each once |
| `Multi.ReadFrame` | src/routing/events/handlers/multi_handler.cpp:13-29 | a frame exactly when length and bytes are all there, and the offset behind it |
| `Multi.UncompressedLawful` | src/routing/events/handlers/multi_handler.cpp:31-46 | where no Multi is compressed, the law that Multis nest to a finite depth holds of itself |
| `Multi.PackedFlatten` | src/routing/events/handlers/multi_handler.cpp:31-46 | packed frames come out in wire order, each once, whatever incomplete frame follows |
| `Multi.FlattenSized` | src/network/cmclient.cpp:24-25 | only frames of four bytes or more are dispatched, and those inside a frame are nested less deep than it |
| `Multi.FlattenShorter` | src/routing/events/handlers/multi_handler.cpp:31-46 | without compression they are also shorter than it |
| `Session.CMClient.SendMsg` | src/network/cmclient.cpp:60-65 | the frame given to async_send is the message, or its ciphertext when the channel is secured |
| `Session.CMClient.SentBack` | src/network/cmclient.cpp:60-65 | from each frame given to async_send the other end gets the message back, by decryption exactly where the channel was secured |
| `Session.CMClient.OnWrite` | src/network/connection/tcp.cpp:130-138 | bytes that leave and completed writes change neither mode nor messages |
| `Session.CMClient.Emit` | src/routing/events/handlers/encryption_handler.cpp:16-17 | the listeners send in the mode the channel is in, and may throw |
| `Session.CMClient.HandleEncryptRequest` | src/routing/events/handlers/encryption_handler.cpp:10-19 | the response is sent, or the failure emitted when making it fails |
| `Session.CMClient.HandleEncryptResult` | src/routing/events/handlers/encryption_handler.cpp:21-34 | the mode is what the result says, and only then the listeners hear of it, so what they send goes out in the new mode; unreadable, nothing changes |
| `Session.CMClient.HandleMulti` | src/routing/events/handlers/multi_handler.cpp:31-46 | ends for every body, decompressed ones included; an exception of a consumed frame would end the loop, but none ever comes, so the frames dispatched are the whole depth-first flattening |
| `Session.CMClient.Dispatch` | src/network/cmclient.cpp:34-53 | the frame and all inside it are dispatched depth first, with their effect on mode and messages; it throws exactly when parsing, handler or listener does |
| `Session.CMClient.ConsumeFrame` | src/network/cmclient.cpp:24-58 | only decryption can throw, what Dispatch throws is caught; frames under four bytes are dropped; else the flattening of the decoded data is dispatched |
| `Session.CMClient.OnFrame` | src/network/cmclient.cpp:13-14 | consuming one more frame extends what the frames so far led to |
| `Session.CMClient.OnBody` | src/network/connection/tcp.cpp:89-104 | the frame is consumed before the next header read starts; after an exception none starts |
| `Session.CMClient.Arrive` | src/network/connection/tcp.cpp:72-104 | a chunk of any size: the frames it completes are consumed one by one, and it throws exactly when one of them does |
| `Replies.KindsAre` | src/network/cmclient.cpp:34-45 | the kinds of frames by their first four bytes |
| `Replies.StepAnswers` | src/routing/events/handlers/encryption_handler.cpp:10-34 | what a dispatched frame makes the client send: the response to a request, in the mode at hand; what the listeners send when it is refused; what they send for a result, in the mode it brings; what the handler of another message sends; nothing for anything else |
| `Replies.ThrowsAre` | src/network/cmclient.cpp:34-53 | when dispatching a frame ends in an exception, by its kind |
| `Replies.StepsAnswer` | src/network/cmclient.cpp:34-53 | the answer of frame k stands directly behind those of the frames before it, and no other message between |
| `Peer.QuietSteps` | src/routing/events/handlers/encryption_handler.cpp:21-34 | without results the mode stays, and all messages go out in it |
| `Peer.PlainSteps` | src/routing/events/handlers/encryption_handler.cpp:21-34 | without a successful result the channel stays in plaintext, and so does all that is sent |
| `Peer.ResultDivides` | src/routing/events/handlers/encryption_handler.cpp:21-34 | within one frame: plaintext up to the successful result, ciphertext from it on, the messages of its own listeners included |
| `Peer.StepModes` | src/routing/events/handlers/encryption_handler.cpp:21-34 | message i of the peer leads to the right mode, and is answered in it |
| `Peer.FrameAnswered` | src/network/cmclient.cpp:24-58 | in a run, every frame dispatched for a message of the peer has its answer at its place in what is sent, in the mode of the channel by then |
| `Peer.AllFramesAnswered` | src/network/cmclient.cpp:24-58 | all of them have |
| `Peer.NothingElse` | src/network/cmclient.cpp:24-65 | besides the answers, without a gap between them, only messages of the client itself are sent |
| `Peer.InMode` | src/network/cmclient.cpp:28-30 | a frame of the peer is decoded to what was sent: plaintext up to the result, decrypted behind it |
| `Peer.PeerWired` | src/network/cmclient.cpp:24-58 | frames of the peer consumed in turn: none throws, all are dispatched flattened, and what is sent is what should be |
| `Peer.OnChunk` | src/network/connection/tcp.cpp:89-104 | a chunk, also one with the result and the first encrypted frame in it, keeps the agreement with the peer |
| `Peer.OnOwn` | src/network/cmclient.cpp:60-65 | a message of the client keeps it, sent in the mode the client should be in |
| `Peer.Run` | src/network/cmclient.cpp:24-65 | every run against such a peer, in whatever chunks its bytes arrive: messages dispatched flattened, the mode of the peer, and exactly the messages to be sent, each in its mode, with the answer to every dispatched frame once and at its place, and all of them got back by the other end |
| `Peer.ResultDividesRun` | src/network/cmclient.cpp:60-65 | over a whole run, what is sent up to the successful result is plaintext, and everything from it on is ciphertext |
| `VdfText.SkipWs` | src/utils/vdf/vdf_text.cpp:43-51 | stops only at the end or at a byte that starts neither space nor comment |
| `VdfText.TextParser.SkipSpaces` | src/utils/vdf/vdf_text.cpp:43-51 | the recursive skipping ends and agrees with SkipWs |
| `VdfText.TextParser.ParseString` | src/utils/vdf/vdf_text.cpp:53-89 | string, exception or read past the end, for every text |
| `VdfText.TextParser.ParseMember` | src/utils/vdf/vdf_text.cpp:102-111 | one key with its object or string |
| `VdfText.TextParser.ParseObject` | src/utils/vdf/vdf_text.cpp:91-115 | the loop up to the closing brace |
| `VdfText.TextParser.Parse` | src/utils/vdf/vdf_text.cpp:10-31 | the loop up to the end of the text |
| `VdfTokens.SkipsGap` | src/utils/vdf/vdf_text.cpp:43-51 | any spaces and complete comments are skipped whole |
| `VdfTokens.ReadsWord` | src/utils/vdf/vdf_text.cpp:60-86 | a complete quoted word is read as its decoding, in literal codes: `\n` and `\t` are a line feed and a tab, any other byte behind a backslash is itself |
| `VdfTokens.MemberLink` | src/utils/vdf/vdf_text.cpp:102-111 | on bytes and on tokens a member reads alike |
| `VdfTokens.OpenWord` | src/utils/vdf/vdf_text.cpp:60-86 | a string that is not closed ends with the text; a backslash at the very end reads past it |
| `VdfTokens.ObjectLink` | src/utils/vdf/vdf_text.cpp:91-115 | so does an object |
| `VdfTokens.RootLink` | src/utils/vdf/vdf_text.cpp:10-31 | so does a text: its outcome is a function of its tokens |
| `VdfTokens.GapsDoNotMatter` | src/utils/vdf/vdf_text.cpp:43-51 | texts with the same tokens parse alike, whatever spaces and comments stand between |
| `VdfPrint.Stringify` | src/utils/vdf/vdf_text.cpp:123-149 | the printed text is that of the members in whatever order the loop met them, and stands for the tree with numbers as text |
| `VdfPrint.PrintMember` | src/utils/vdf/vdf_text.cpp:126-147 | one member of it |
| `VdfPrint.SpreadText` | src/utils/vdf/vdf_text.cpp:123-149 | the printed text is its tokens with the gaps printed between them |
| `VdfPrint.IntTextValue` | src/utils/vdf/vdf_text.cpp:139-146 | the text of an integer, read as a number, is that integer |
| `VdfPrint.FloatTextValue` | src/utils/vdf/vdf_text.cpp:139-146 | the text of a finite float is the number of its millionths, sign included |
| `VdfPrint.EntriesBack` | src/utils/vdf/vdf_text.cpp:91-115 | the tokens of printed members read back as those members |
| `VdfPrint.PrintedParses` | src/utils/vdf/vdf_text.cpp:123-149 | the text of plain members, at any depth and in any order, parses to the object they stand for |
| `VdfExact.QuotedCosts` | src/utils/vdf/vdf_text.cpp:60-86 | each quote that is read into a string has cost a backslash of the text, and each backslash two |
| `VdfExact.RootCosts` | src/utils/vdf/vdf_text.cpp:10-31 | so the keys and strings read from a whole text cost no more backslashes than it has, whatever was overwritten |
| `VdfExact.PrintedSlashes` | src/utils/vdf/vdf_text.cpp:123-149 | printed text has the backslashes of its keys and strings, and no other |
| `VdfExact.MeaningCount` | src/utils/vdf/vdf_text.cpp:123-149 | with different keys in every object, nothing is lost from the members to the object they stand for |
| `VdfExact.PlainIsNeeded` | src/utils/vdf/vdf_text.cpp:136-137 | a string printed between quotes is read back as itself, whatever follows, if and only if it holds no quote and no backslash |
| `VdfExact.PrintedParsesOnly` | src/utils/vdf/vdf_text.cpp:118-149 | the text printed for members parses to the object they stand for if and only if all keys and strings in them, at any depth, hold no quote and no backslash |
| `VdfExact.PrintAndParse` | src/utils/vdf/vdf_text.cpp:118-149 | printing any tree, in whatever order its members are met, and parsing the text gives the tree, with numbers as decimal text, if and only if it is plain |
| `VdfBin.ReadCString` | src/utils/vdf/vdf_bin.cpp:7-14 | the bytes up to the NUL and the position behind it, or the exception |
| `VdfBin.ReadInt32` | src/utils/vdf/vdf_bin.cpp:16-23 | the signed number whose 32 bits are the four bytes read, or the exception when fewer are left |
| `VdfBin.ReadUInt64` | src/utils/vdf/vdf_bin.cpp:25-32 | the number below 2^64 whose bytes are the eight read, or the exception when fewer are left |
| `VdfBin.ReadFloat` | src/utils/vdf/vdf_bin.cpp:34-41 | the pattern below 2^32 whose bytes are the four read, or the exception when fewer are left |
| `VdfBin.ReadValue` | src/utils/vdf/vdf_bin.cpp:51-68 | the switch over the type byte, unknown types included |
| `VdfBin.ParseObject` | src/utils/vdf/vdf_bin.cpp:43-71 | for every buffer the parser ends, inside the buffer |
| `VdfBin.ObjectAt` | src/utils/vdf/vdf_bin.cpp:43-71 | the position stays within the buffer |
| `VdfBin.ItemBack` | src/utils/vdf/vdf_bin.cpp:51-68 | every kind of value is read back from its bytes |
| `VdfBin.EntriesBack` | src/utils/vdf/vdf_bin.cpp:43-71 | encoded members with their end byte read back as the tree, last duplicate winning, up to just behind that byte |
| `VdfBin.Decodes` | src/utils/vdf/vdf_bin.cpp:73-76 | the encoding of any tree parses to it, also when the end byte at the top is missing |
| `VdfBinExact.TakenExactly` | src/utils/vdf/vdf_bin.cpp:43-71 | a buffer is parsed, to what it stands for, if and only if it starts with a complete encoding, in literal type codes, or is one whose last end bytes are missing; anything else throws |

## Left out

- Raw memory of strings and arrays (local and heap storage, growth, moves) and self-assignment of maps: they are sequences and values here.
- The order buffer of objects with 16-bit units, whose lengths take two units: only the byte form is modelled.
- Destructors: freeing nodes is leaving them behind.
- The comparison shortcut for two views of the same memory: keys are compared by content.
- Two references into one object at once: a method that returns a node lets the caller write its value, nothing more.
- Runs.RunObject: what a run does after an operation that parts buffer and tree is not followed further.
- JsonObjects.JsonObject.AllKeys: the array given is taken to be empty before, so that an element that is not set holds nothing.
- JsonParse.ReadValue: no string in the text has 2^32 bytes or more, which every text below that length meets (`JsonParse.ShortText`), because the value is taken from a parsed object by walking its buffer.
- JsonParse.ReadElems: the same bound on strings.
- JsonParse.ReadMember: the same bound on strings.
- JsonParse.ReadMembers: the same bound on strings.
- JsonParse.Parse: the same bound on strings.
- Values of nested objects inside an object are plain values: an object is filled by one parser call, and then a member of its parent.
- JSON node operations on arrays, type tests, conversions to numbers (strtod) and strings: mechanical.
- The state of a node before a parse starts, and the fallback node for missing members.
- JSON text: a \u escape cut off by the end of the text makes the string fail here; the source reads past the end.
- JSON texts outside the grammar, such as those with missing commas: which of them are accepted is said by the reference parser, that what is accepted survives printing by `JsonRoundTrip.Normalizes`, and what is missing in the others by `JsonErrors.ErrorTells`.
- Utf16Strings.ParseUnits: a byte from 0x80 on directly behind a backslash becomes the unit of the same value; in the source that depends on the signedness of char.
- to_string_fp: infinities, NaNs and the styles e, g and a; numbers are exact reals of the form k/2^n, so underflow of the mask is not modelled.
- Integer to_string with other bases than ten, and radix 16 digit strings.
- Sockets, name resolution, connecting, socket errors and reconnecting: the network is a caller that lets bytes leave and arrive, on one strand; after a failed magic the reader stops.
- Cipher, protobuf and gzip: functions, with the law that decryption undoes encryption and the law that Multis nest to a finite depth, without which the client would not come to an end.
- Session.CMClient.ConsumeFrame: decrypted data under four bytes is dropped here, where the source reads past the end.
- Other handlers, event listeners and job routing: what they send and whether they throw is a parameter that depends on the frame or on the outcome only.
- VDF text: reading at the end of the text without a check is the outcome Overrun; a finite float to print is given as its sign and its size in millionths, the rounding of std::to_string; binary floats are bit patterns.
- The encoder of binary VDF is a reference: the library only parses.
