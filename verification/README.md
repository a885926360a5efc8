# cJSON, the telemetry pipeline and the text table

A Dafny 4.11 model of the data-acquisition service in this repository, with proofs. `dafny verify
dfyconfig.toml` checks everything.

- **cJSON** (`common/cJSON.c`) is modelled in two layers. The functions of `Doubles`, `Numbers`, `Floats`,
  `Unicode`, `Utf16`, `Strings`, `Json`, `Parser` and `Minifier` say what is computed, on texts and JSON
  values, those of `PrintedTree` what is printed for a tree of nodes, and the lemmas of `RoundTrip`,
  `MinifyPrint`, `MinifyParse` and `MinifyTwice` relate parser, printers and minifier. `Grammar` spells the
  JSON texts of RFC 8259, and those that break off, without looking at the parser, and proves what it makes of
  them. The methods of `Memory`, `Siblings`, `Objects`, `Duplicate`, `ParseText`, `ParseTree`, `PrintText`,
  `PrintTree`, `Build` and `Minifier.MinifyInPlace` work as the source does, on linked nodes, byte buffers and cursors. The
  allocator `Memory.Heap` may refuse any request, and its ghost set `live` holds what is allocated. A
  ghost `Tree` says what a node owns, and `Shown` what can be reached from it, references included.
- **The telemetry pipeline**: `Hardware` (caches and samples), `Telemetry` (one heartbeat as a step,
  and runs of any length), `Dataflow` (the report as a tree of cJSON nodes), `Uplink` (the array of
  bytes in its envelope), `Websocket` (sending) and `EndToEnd` (what a receiver decodes).
- **The text table** (`common/stringtable.c`): `Table`, a block of bytes that shows a grid of cells.

Some terms: a C string is the sequence of bytes before its NUL (`Text`); `At(s, |s|)` is the NUL. A
literal is *complete* if each backslash in it is followed by a byte and each `\u` by four; the parser
skips that many bytes unchecked, so a text without this property may send it past the end
(`Overrun`). A text is *closed* if its literals and block comments end, which the minifier needs.

## What the proofs show about the code

Where the code and its documentation or a standard differ, the model follows the code.

- A high surrogate is dropped together with the escape behind it if that is not a low surrogate
  (`common/cJSON.c:256-263`); RFC 8259, section 8.2, leaves this open. `Utf16.Repair` says exactly what is lost.
- The parser takes every JSON text (`Grammar.JsonIsAccepted`) and more: any control character as a blank, any
  byte but `u` behind a backslash, and bad surrogates. A text that breaks off is refused at the first byte that
  cannot follow (`Grammar.BrokenIsRefused`).
- `/*/` is a whole comment for the minifier, which looks for the star-slash from the first slash on
  (`common/cJSON.c:1071-1075`, `Minifier.BlockCommentGoes`).
- A string literal that ends at the NUL is accepted (`MinifyParse.UnclosedLiteral`); the parser sees a
  closing quote exactly when the literal is closed (`MinifyParse.EndsAtQuoteExactly`).
- The minifier is not idempotent on every text: `/ /` becomes a comment, and `/ *` one without an end.
  It is exactly on texts where no lone slash has a slash or a star as the next byte that is kept
  (`MinifyTwice.SecondPassExactly`); texts that parse are of this kind (`MinifyParse.MinifyKeepsMeaning`).
- `cJSON_ReplaceItemInObject` overwrites the name of the new item without freeing it: the name is lost
  exactly when there is a match and the item had a name (`Objects.ReplaceLosesOldName`).
- Parsing does not undo printing for every number. Integers of at most 53 bits come back
  (`Floats.WholeIsReread`). Others need not: 2^58 is printed in full and read back as 2^58 - 32, as the
  loop over its digits rounds (`Floats.LargeIntegerIsLost`); 0.1 is read back as the next smaller double
  (`Floats.OneTenthIsLost`); and 0.3 comes back although its text denotes another number
  (`Floats.ThreeTenthsSurvive`). `Floats.RereadExactly` says exactly which doubles come back, and
  `RoundTrip.PrintThenParse` lifts this to values. What the texts denote, and how much of a number they
  show, is a matter of its own (`Floats.PrintedExactly`, `Floats.PrintedIsClose`).
- The uplink text of the empty string is not JSON (`Uplink.UplinkParses`, in both directions).
- The size test of `s_table_create` accepts blocks that are too small for the text
  (`Table.SizesCompared`), titles of 65 bytes for a field of 64, and one degenerate table with a
  negative `memset` size (`Table.TitleLineIsWide`); these are exactly the accepted tables whose writes
  leave the block or the field (`Table.WritesFitExactly`, with inputs in `Table.AcceptedWithoutRoom`).
  A long title overwrites the last bar of its line (`Table.TitleCoversBar`).
- `ws_format_hardware_data` returns -1 on an error, which its type turns into true; its result is not
  used, and what it had built is lost: if memory does not run out, exactly when it finds a null pointer
  (`Dataflow.FormatHardwareData`).

## Model

| member | source | states |
|---|---|---|
| `Doubles.NearestIsDouble` | common/cJSON.c:102-138 | the result of an operation on doubles is an integer of at most 53 bits times a power of two |
| `Doubles.NoneIsNearer` | common/cJSON.c:102-138 | and no such number is nearer to the exact result |
| `Doubles.TieGoesToEven` | common/cJSON.c:102-138 | half way between two neighbouring doubles of 53 bits, at any scale, the one with the even mantissa is taken |
| `Floats.ParsePrintNumber` | common/cJSON.c:102-160 | for each of the four formats and every rounding that is exact on integers of at most 53 bits: `parse_number` stops behind the text, reads the digits that `%f` and `%e` print without loss and scales them once; those of an integer go through the loop |
| `Floats.WholeIsReread` | common/cJSON.c:102-160 | with every such rounding: of the numbers up to 2^53 that are printed without a fraction, exactly the integers are read back |
| `Floats.RereadExactly` | common/cJSON.c:102-160 | in double arithmetic, exactly which numbers are read back: integers of at most 53 bits; larger ones if the loop over their digits gives them; others if one product of their printed digits gives them |
| `Floats.LargeIntegerIsLost` | common/cJSON.c:109-112 | an input: all digits of 2^58 are printed, but it is read back as 2^58 - 32 |
| `Floats.ThreeTenthsSurvive` | common/cJSON.c:102-160 | an input: the text of the double 0.3 denotes another number, but it is read back |
| `Floats.OneTenthIsLost` | common/cJSON.c:102-160 | an input: the double 0.1 is read back as the next smaller one |
| `Floats.MillionthIsDouble` | common/cJSON.c:153 | the double that the model has for `1.0e-6` is the nearest one |
| `Floats.TenTo60IsDouble` | common/cJSON.c:151 | the double that the model has for `1.0e60` is the nearest one |
| `Floats.PrintedIsDenoted` | common/cJSON.c:141-160 | read without rounding, the text of a number gives the value that the model says it denotes |
| `Floats.PrintedExactly` | common/cJSON.c:141-160 | the text of a number denotes the number exactly if it shows all its digits: `%lld` and `%.0f` those of a whole number, `%f` six behind the point, `%e` seven in all |
| `Floats.DigitsAreLost` | common/cJSON.c:155-156 | an input: the text of 0.0078125, that is 1/128, denotes 0.007812 |
| `Floats.PrintedIsClose` | common/cJSON.c:141-160 | the text of a number is off by at most half a unit of the last digit that is printed |
| `Floats.PrintedIsShort` | common/cJSON.c:141-160 | the text of a finite `double` fits into the 21 or 64 bytes allocated for it, whether or not `valueint` agrees with it |
| `Floats.Look` | common/cJSON.c:141-160 | which texts show a point and which an exponent: neither if the number is an integer within an epsilon of 2^-52 and an `int` or below 1e60; otherwise a point, and an exponent exactly below 1e-6 or above 1e9 |
| `Floats.Shapes` | common/cJSON.c:153-156 | six digits behind a point; an exponent has its sign and at least two digits |
| `Numbers.TruncateIs` | common/cJSON.c:134-136 | `valueint` is the number without its fraction, towards zero |
| `Unicode.Utf8RoundTrip` | common/cJSON.c:267-292 | decoding the UTF-8 of a scalar value (RFC 3629, section 3) gives the value |
| `Unicode.Utf8Onto` | common/cJSON.c:267-292 | every well-formed UTF-8 sequence, without overlong forms, is the encoding of the value it decodes to |
| `Unicode.Utf8Examples` | common/cJSON.c:267-292 | the examples of RFC 3629, section 7 |
| `Unicode.Utf8Ends` | common/cJSON.c:267-292 | the first and the last character of one, two and three bytes |
| `Unicode.LongEnds` | common/cJSON.c:267-292 | and of four bytes |
| `Utf16.RepairIsWellFormed` | common/cJSON.c:250-265 | what is left after dropping bad surrogates is well-formed UTF-16 |
| `Utf16.RepairIsMinimal` | common/cJSON.c:250-265 | the repair changes a sequence of code units exactly when it is ill-formed |
| `Utf16.UnescapeIsUtf8` | common/cJSON.c:226-301 | for every literal with complete escapes the second scan writes the UTF-8 of its repaired UTF-16, with surrogate pairs joined |
| `Strings.Hex4Reads` | common/cJSON.c:162-203 | four hexadecimal digits of a number below 65536, most significant first and each in either case, are read as that number |
| `Strings.Hex4OfOther` | common/cJSON.c:162-203 | if one of the four bytes is no hexadecimal digit, the result is 0 |
| `Strings.EscapeIs` | common/cJSON.c:334-366 | how each byte is printed: as it is, behind a backslash, by a letter, or by four hexadecimal digits |
| `Strings.EscapedLengthIsExact` | common/cJSON.c:319-370 | the length counted by the first scan of `print_string_ptr` is the length written, but for the two quotes |
| `Strings.UnescapeFits` | common/cJSON.c:218-301 | the second scan of `parse_string` never writes more bytes than the first one counted |
| `Strings.EscapeReadBack` | common/cJSON.c:207-371 | reading a printed literal gives the bytes back, for every NUL-free string, whatever follows it |
| `Parser.CompleteParse` | common/cJSON.c:218-251 | if every literal has complete escapes, the cursor of the whole parser stays inside the text |
| `Bytes.SkipIs` | common/cJSON.c:386-390 | every control character is skipped like a space, and nothing else |
| `Grammar.ReadLiteral` | common/cJSON.c:207-307 | every string literal of RFC 8259, section 7, is read: bytes as they are, two-byte escapes, `\u` escapes in either case, and surrogate pairs, as the UTF-8 of their characters |
| `Grammar.NoCharacter` | common/cJSON.c:250-258 | an escape of U+0000, a low surrogate on its own, and a high one without an escape behind it are dropped |
| `Grammar.NoPair` | common/cJSON.c:256-263 | a high surrogate is dropped together with the escape behind it if that is no low one |
| `Grammar.ReadNumeral` | common/cJSON.c:102-138 | every number of RFC 8259, section 6, is read up to its end, one step for each digit and scaled once, in any arithmetic |
| `Grammar.NumeralDenotes` | common/cJSON.c:102-138 | without rounding the result is the integer of all its digits, with its sign, times ten to the power of the exponent less the number of digits behind the point |
| `Grammar.SmallNumeral` | common/cJSON.c:102-138 | on doubles, if that integer has at most 53 bits, only the power of ten and the product are rounded |
| `Grammar.JsonIsAccepted` | common/cJSON.c:393-661 | every JSON text of RFC 8259, with any blanks between its tokens and any spelling of its numbers and of its strings (without U+0000 and single surrogates), is read as the value that it spells |
| `Grammar.CommentsAreStripped` | common/cJSON.c:393-1089 | a text whose literals and other bytes make up a JSON text, whatever blanks and comments are between them, is read as the value that it spells when it has been minified |
| `Grammar.BrokenIsRefused` | common/cJSON.c:393-661 | a text that breaks off, at any depth, is refused with the error pointer at the first byte that cannot follow: in place of a value, a name or a colon, or behind an item or a member |
| `Grammar.TrailingIsRefused` | common/cJSON.c:410-417 | behind a value anything but blanks is refused exactly if the end of the text is asked for |
| `Json.EmptyLayout` | common/cJSON.c:551-683 | empty containers, with the line break and the tabs of an empty object |
| `Json.ArrayLayout` | common/cJSON.c:586-604 | a comma between items, and a space behind it when formatted |
| `Json.MemberLayout` | common/cJSON.c:744-755 | name, colon and value; when formatted behind as many tabs as the depth, with a tab behind the colon |
| `Json.ObjectLayout` | common/cJSON.c:735-768 | members between braces with commas; when formatted each on a line of its own, and the closing brace behind its tabs |
| `RoundTrip.ReadString` | common/cJSON.c:207-371 | `parse_string` of a printed literal anywhere in a text gives the string and the position behind it |
| `RoundTrip.ReadValue` | common/cJSON.c:433-769 | a printed value is read back at any depth, in both forms and inside any text, with the numbers that `parse_number` makes of the printed ones; only a number depends on the byte behind it |
| `RoundTrip.ReadItems` | common/cJSON.c:498-605 | the printed items of an array, followed by a bracket, are read back in order |
| `RoundTrip.ReadMembers` | common/cJSON.c:608-769 | the printed members of an object, followed by a brace, are read back in order, names and values |
| `RoundTrip.PrintThenParse` | common/cJSON.c:393-430 | parsing what either printer gives succeeds and consumes all of it, with and without `require_null_terminated`; it gives the same tree exactly if all numbers are read back, as integers of at most 53 bits are |
| `RoundTrip.PrintIsInjective` | common/cJSON.c:425-430 | trees that are read back have different texts if they are different |
| `Minifier.MinifyFixedPoint` | common/cJSON.c:1057-1089 | minifying never makes a text longer, and leaves it as it is exactly when it holds no blank and no comment outside its literals |
| `Minifier.LineCommentGoes` | common/cJSON.c:1068-1070 | a line comment goes up to the next line break or the NUL, and what follows is minified as on its own |
| `Minifier.BlockCommentGoes` | common/cJSON.c:1071-1075 | a block comment goes up to the first star-slash behind its slash |
| `Minifier.MinifyPieces` | common/cJSON.c:1057-1089 | of a text put together from blanks, comments, literals and other bytes exactly the literals and the other bytes are left |
| `Minifier.Pieces` | common/cJSON.c:1057-1089 | every closed text is put together from such pieces |
| `Minifier.MinifyInPlace` | common/cJSON.c:1057-1089 | the in-place algorithm leaves the minified text, that is the literals and the other bytes among the pieces of the text, and a NUL, and nothing behind them changes: the write cursor never passes the read cursor |
| `Minifier.CopyLiteral` | common/cJSON.c:1076-1084 | the loop over a literal copies it up to its own closing quote, over escaped quotes |
| `MinifyPrint.Literal` | common/cJSON.c:1076-1084 | a printed literal is copied as it is, whatever the string holds, `//` and quotes included |
| `MinifyPrint.Value` | common/cJSON.c:467-769 | minifying a formatted value inside a text gives its unformatted form, at every depth |
| `MinifyPrint.MinifyUndoesFormatting` | common/cJSON.c:425-1089 | `cJSON_Minify` of `cJSON_Print(t)` is `cJSON_PrintUnformatted(t)` |
| `MinifyParse.NumberLocal` | common/cJSON.c:102-138 | `parse_number` looks at no byte behind the number and its delimiter |
| `MinifyParse.ValueKeeps` | common/cJSON.c:433-661 | parsing a value in a text and at the matching place of its minified form gives the same value |
| `MinifyParse.MinifyKeepsMeaning` | common/cJSON.c:393-1089 | if a text with closed literals and comments parses, its minified form parses to the same tree, and minifying again changes nothing |
| `MinifyParse.EndsAtQuoteExactly` | common/cJSON.c:228-306 | the parser finds a quote at the end of a literal exactly when the literal is closed; otherwise it stops at the NUL |
| `MinifyParse.UnclosedIsRead` | common/cJSON.c:228-306 | a literal without a closing quote is read all the same, up to the NUL |
| `MinifyParse.UnclosedLiteral` | common/cJSON.c:228-306 | an input: an opening quote and one letter parse to the string of that letter |
| `MinifyTwice.SecondPassExactly` | common/cJSON.c:1057-1089 | for every closed text: the second pass is safe and changes nothing exactly when no slash that is kept is followed by a kept slash or star |
| `MinifyTwice.SecondPassCanMatter` | common/cJSON.c:1057-1089 | an input: the first pass makes a comment of `/ /`, and the second removes it |
| `MinifyTwice.SecondPassCanOverrun` | common/cJSON.c:1057-1089 | an input: the first pass makes of `/ *` a comment without an end, so the second would leave the text |
| `Memory.RefusedBetween` | common/cJSON.c:52-53 | `OutOfMemory` after a call means that a request made meanwhile was refused |
| `Memory.Heap.Bytes` | common/cJSON.c:55-84 | a request is granted or refused; what is granted is new and is live from then on |
| `Memory.Heap.NewItem` | common/cJSON.c:78-83 | a new item is zero-filled |
| `Memory.StrDup` | common/cJSON.c:55-64 | the copy holds the string; without memory it is null and nothing is allocated |
| `Memory.Delete` | common/cJSON.c:86-99 | exactly what the forest owns is freed, each node and string once; what is reached only through a reference stays |
| `Memory.DeleteContents` | common/cJSON.c:89-95 | of one node, the children and the value are freed unless it is a reference, and the name always |
| `Siblings.LinksMirror` | common/cJSON.c:772-885 | in a list `x.next.prev == x`, and the first `prev` and the last `next` are null |
| `Siblings.GetArraySize` | common/cJSON.c:772-778 | the number of children |
| `Siblings.GetArrayItem` | common/cJSON.c:779-784 | the child at the index, the first one for a negative index, null out of range |
| `Siblings.AddItemToArray` | common/cJSON.c:793-821 | the children are the old ones and the new item behind them; a null item changes nothing |
| `Siblings.DetachItemFromArray` | common/cJSON.c:837-851 | the selected child is taken out of the sequence and its links are null; out of range nothing changes |
| `Siblings.ReplaceItemInArray` | common/cJSON.c:869-885 | the new item stands at the index, the old one and all it owned is freed; out of range nothing changes |
| `Siblings.Exchange` | common/cJSON.c:875-883 | the pointer surgery on the neighbours, the parent and both items |
| `Objects.SameNameIsEquivalence` | common/cJSON.c:41-50 | equality of names up to letter case is an equivalence, null included |
| `Objects.SameNameIs` | common/cJSON.c:41-50 | names are the same exactly if they have the same length and at each index the same byte or the two cases of one ASCII letter |
| `Objects.StrCaseCmp` | common/cJSON.c:41-50 | the comparison gives 0 exactly for such names, and for two null pointers |
| `Objects.Find` | common/cJSON.c:785-890 | the scan by name stops at the first match and counts the items before it |
| `Objects.GetObjectItem` | common/cJSON.c:785-790 | the first match, or null |
| `Objects.DetachItemFromObject` | common/cJSON.c:855-863 | the first match is taken out, or nothing changes |
| `Objects.AddItemToObject` | common/cJSON.c:822-829 | the item loses its old name, gets a copy of the new one and becomes the last; without memory it is last and nameless; the live set changes by the two names only |
| `Objects.ReplaceItemInObject` | common/cJSON.c:886-895 | the first match gives way to the new item under the new name; nothing is lost exactly when there is no match or the new item had no name |
| `Objects.ReplaceLosesOldName` | common/cJSON.c:890-892 | of what is live afterwards, exactly the old name of the new item has no owner, if there was a match; so all has one exactly when there is no match or no old name |
| `Objects.FoundAfterAdd` | common/cJSON.c:785-829 | an item added under a name without a match is the one that is found |
| `Objects.FoundAfterReplace` | common/cJSON.c:785-895 | after a replacement the new item is found |
| `Objects.FoundAfterDetach` | common/cJSON.c:785-863 | after a detachment the next item of that name is found, if there is one |
| `Objects.CreateReference` | common/cJSON.c:798-807 | a reference shows what its item shows and owns its node only |
| `Objects.AddItemReferenceToArray` | common/cJSON.c:830-832 | the reference is appended and the item is untouched |
| `Objects.DeleteReference` | common/cJSON.c:86-99 | deleting a reference frees one node |
| `Duplicate.CopyItem` | common/cJSON.c:1009-1031 | the copy of one item has its kind, numbers, string and name; if memory runs out nothing is left behind |
| `Duplicate.CopyChildren` | common/cJSON.c:1036-1053 | the loop appends a copy of each child in order, or deletes what was copied |
| `Duplicate.DuplicateItem` | common/cJSON.c:1007-1055 | the copy has equal content at every depth if asked to, no references, correct links, null outer links and a footprint of its own; on failure nothing is left behind; the source is untouched |
| `ParseText.ParseNumberInto` | common/cJSON.c:102-138 | the loops over digits, each product and each sum rounded to a double, compute the value of the number grammar in double arithmetic; `valueint` is truncated |
| `ParseText.WriteUtf8` | common/cJSON.c:267-292 | the backward writes with fall-through produce the UTF-8 of the code point |
| `ParseText.Count` | common/cJSON.c:218-220 | the first scan counts the characters up to the quote or the NUL |
| `ParseText.Fill` | common/cJSON.c:226-301 | the second scan fills the buffer of the counted size with the unescaped string and its NUL |
| `ParseText.UnescapeIsNulFree` | common/cJSON.c:253-254 | no NUL byte gets into a parsed string |
| `ParseText.ParseStringInto` | common/cJSON.c:207-307 | the string is allocated and filled, or null is returned and nothing is allocated |
| `ParseTree.ParseValueInto` | common/cJSON.c:433-464 | the node that is filled stands for the value of the grammar, and all that was allocated is below it |
| `ParseTree.ParseArrayInto` | common/cJSON.c:498-533 | an array node with linked items, or null with the items so far below the node |
| `ParseTree.ParseObjectInto` | common/cJSON.c:608-661 | an object node with linked, named members, or null with the members so far below the node |
| `ParseTree.ParseWithOptsInto` | common/cJSON.c:393-418 | for every pattern of allocation failures: null leaves the live set as it was and `ep` at the error, success adds exactly what the tree owns, and the tree is what the grammar says, with the fields and names that the printer needs |
| `PrintText.PrintNumberText` | common/cJSON.c:141-160 | for every finite number, each of the four formats and any `valueint`, the text in a new buffer, or null and nothing allocated |
| `PrintText.PrintStringPtr` | common/cJSON.c:310-371 | the literal in a new buffer of exactly the counted size, or null and nothing allocated |
| `PrintedTree.ParsedCanBePrinted` | common/cJSON.c:393-430 | a tree that the parser built can be given to the printer |
| `PrintedTree.PrintItemsIsJoined` | common/cJSON.c:586-604 | the texts of the items with separators between them are the text of the array |
| `PrintedTree.PrintMembersIsLines` | common/cJSON.c:735-768 | the lines of the members are the text of the object |
| `PrintedTree.FitText` | common/cJSON.c:467-495 | the text of a tree whose strings and names are there and whose numbers agree is the text of the JSON value that it stands for |
| `PrintedTree.TextIsNulFree` | common/cJSON.c:467-495 | the text of every tree is a C string |
| `PrintedTree.SameContentIsSameText` | common/cJSON.c:467-1055 | trees of the same content, such as a duplicate and its source, stand for the same value and are printed alike in both forms |
| `PrintTree.FreeAll` | common/cJSON.c:578-582 | every text that is there is freed once |
| `PrintTree.PrintValue` | common/cJSON.c:467-495 | for every tree with finite numbers, missing strings and names included: the text in a new buffer, and no other allocation left; or null and none left |
| `PrintTree.CollectItems` | common/cJSON.c:558-568 | the entries hold the texts of the items and `len` covers all of them, or printing has failed |
| `PrintTree.ComposeArray` | common/cJSON.c:586-605 | the output is composed inside the buffer of size `len`, and everything else is freed |
| `PrintTree.GatherMembers` | common/cJSON.c:701-714 | names and entries hold the texts of the members and `len` covers every byte at this depth, or printing has failed |
| `PrintTree.ComposeObject` | common/cJSON.c:735-769 | the output is composed inside the buffer of size `len`, and everything else is freed |
| `PrintTree.PrintItem` | common/cJSON.c:425-430 | for every tree with finite numbers, every pattern of allocation failures and both forms: the one allocation left is the text of the tree, or none; if the tree makes up a JSON value, it is the text of that value |
| `Build.CreateString` | common/cJSON.c:931-938 | an item with a copy of the string; without memory for the copy it has none |
| `Build.CreateContainer` | common/cJSON.c:939-950 | an empty array or object |
| `Build.AddMember` | common/cJSON.c:822-829 | for every pattern of allocation failures: the object has one more member, owns what the item owned and the name, and nothing else is allocated; the member has the name unless memory ran out |
| `Build.AddItem` | common/cJSON.c:810-821 | the array has one more item and owns what the item owned |
| `Build.AddString` | common/cJSON.h:138 | the object has one more member, a string; if memory runs out the member, its name or its string is missing, and all that is allocated belongs to the object |
| `Uplink.FormatUplinkData` | websocket/source/srv_websocket.cpp:14-42 | -1 for a null buffer or text and nothing written; otherwise the buffer holds the uplink text |
| `Uplink.UplinkIsPrinted` | websocket/source/srv_websocket.cpp:23-36 | for a non-empty string the text is the unformatted print of cmdCode 1, the tag and the array of its `char` values |
| `Uplink.UplinkParses` | websocket/source/srv_websocket.cpp:14-42 | the text parses exactly when the string is not empty, signed `char` or not |
| `Uplink.UplinkDecodes` | websocket/source/srv_websocket.cpp:14-42 | in the parsed text "cmdCode" is 1, "cmdMerge" the tag, and "data" has one number for each byte: the byte, or 256 less if `char` is signed and the byte is above 127 |
| `Uplink.UplinkIsShort` | websocket/source/srv_websocket.cpp:14-42 | with a tag of five digits the text has at most 39 + 5n bytes |
| `Uplink.EmptyIsNotJson` | websocket/source/srv_websocket.cpp:35-36 | for the empty string the closing bracket overwrites the opening one, and the parser reports an error |
| `Hardware.ObjectsNew2Arr` | hardware/srv_hardware.cpp:187-207 | `n` different zero-filled caches, pointers to them in order, and a null pointer at the end |
| `Hardware.KindByName` | hardware/srv_hardware.cpp:8-49 | the kind whose name the first three bytes of the model are, in any case; else TBD |
| `Hardware.HasKindIs` | hardware/srv_hardware.cpp:8-49 | the first three bytes of the model are COL, CUR, VOL, ENV, ASE or PSE, but for the case of letters, exactly if the kind is the one of that name |
| `Hardware.Device.constructor` | hardware/srv_hardware.cpp:407-456 | the kind that the board carries, its name as the terminal, as many channels as the board says for this kind, all zero-filled, so to be reported, with the type that follows from the kind |
| `Hardware.InitialIs` | hardware/srv_hardware.cpp:430-450 | every channel starts with its type and zero in every other field |
| `Hardware.EnvironmentInOrder` | hardware/srv_hardware.cpp:230-248 | the `i`th channel of an environment device samples the `i`th quantity |
| `Hardware.UsedCache` | hardware/srv_hardware.cpp:305-310 | the status becomes used and nothing else changes |
| `Hardware.LookCacheStatus` | hardware/srv_hardware.cpp:313-335 | 0 exactly if a channel before the first null pointer is to be reported; else -1 for a null array or pointer, or 1 |
| `Hardware.GetGpioVal` | hardware/srv_hardware.cpp:341-368 | by kind: the current, the voltage or the analogue input of the port, or the quantity of the type; an unknown kind is an error and leaves the value |
| `Hardware.Device.ParamMonitor` | hardware/srv_hardware.cpp:375-405 | each cache whose sample differs takes it with the time and is to be reported; the others do not change |
| `Hardware.MonitorStamps` | hardware/srv_hardware.cpp:375-405 | a value that changes is stamped with the time and to be reported, and a channel whose value stays is left alone |
| `Telemetry.LookupInReport` | dataflow/ws_dataflow.cpp:135-157 | a report mentions a channel exactly when its status says so, with its contents |
| `Telemetry.CacheIsLastSample` | hardware/srv_hardware.cpp:375-405 | over every run the cache of a channel is its last sample, 0 before the first |
| `Telemetry.SampleIs` | hardware/srv_hardware.cpp:341-368 | which field of the shared memory a sample is, by kind, port and type |
| `Telemetry.TimeOfLastChange` | hardware/srv_hardware.cpp:375-405 | over every run the time of a channel is that of the heartbeat that last changed its sample |
| `Telemetry.ReportedTime` | hardware/srv_hardware.cpp:390-400 | so a report shows a sample with the time when it was taken |
| `Telemetry.NoLostUpdate` | hardware/srv_hardware.cpp:305-405 | over every run: a channel marked as used was last reported with the value in its cache |
| `Telemetry.ReadyMeansReported` | websocket/source/srv_websocket.cpp:50-103 | after a heartbeat with a sender the last reported value of every channel is the sample just read |
| `Telemetry.OwedExactly` | hardware/srv_hardware.cpp:375-405 | over every run: a channel is to be reported exactly when it never was or its sample changed since |
| `Telemetry.NoSpuriousReport` | websocket/source/srv_websocket.cpp:90-103 | a message carries at least one channel; it mentions one exactly when it never was reported or its sample changed since, and says the current sample |
| `Telemetry.NotReadyKeepsStatus` | websocket/source/srv_websocket.cpp:57-58 | without a sender no message is sent and no channel loses its mark; a mark is set exactly by a change |
| `Dataflow.FormatHardwareParam` | dataflow/ws_dataflow.cpp:91-114 | the node of one channel: kks, ref, vtype, val and t; if memory runs out, a valid node without some of them, and nothing else allocated |
| `Dataflow.AppendParams` | dataflow/ws_dataflow.cpp:135-157 | the channels to be reported are marked and appended in order, up to the first null pointer or the first refused object; whatever memory is refused, all that is allocated belongs to the array |
| `Dataflow.FormatHardwareData` | dataflow/ws_dataflow.cpp:116-169 | if memory does not run out: the text of the document with exactly the channels to be reported, and no other allocation left, exactly when there is no null pointer; whatever memory is refused beside the three containers: if the loop ends, nothing is left but the text, and if it stops before, something of what was built is lost |
| `Websocket.PackAndSend` | websocket/source/srv_websocket.cpp:50-84 | without a sender -1 and nothing changes; otherwise the sender holds the uplink text of the document, the channels are used and no allocation is left |
| `Websocket.WsParamMonitor` | websocket/source/srv_websocket.cpp:90-103 | a message is sent exactly if a channel is to be reported and a sender is there |
| `Websocket.Heartbeat` | usr_main/source/srv_main.cpp:36-40 | one turn of the main loop takes the step of the pipeline, and the sender holds its message |
| `EndToEnd.SendThenReceive` | websocket/source/srv_websocket.cpp:70-76 | decoding the uplink bytes and parsing them gives the value that was printed exactly if all its numbers are read back |
| `EndToEnd.ReportIsExact` | dataflow/ws_dataflow.cpp:135-157 | the elements of a report are the channels to be reported, all of them, in the order of the caches, each with its own contents |
| `EndToEnd.SendArrives` | websocket/source/srv_websocket.cpp:50-84 | the receiver of one send gets the envelope of the device with one element for each channel to be reported |
| `EndToEnd.EnvelopeArrives` | dataflow/ws_dataflow.cpp:131-166 | under "json" the receiver looks up the name, the id, the terminal and the time of the device, MSGE as "mtype", and under "params" an item for each channel to be reported |
| `EndToEnd.ChannelArrives` | dataflow/ws_dataflow.cpp:91-114 | in the item of a channel "kks", "ref", "vtype", "val" and "t" are the codes, the name of the type, the value and the time of this channel |
| `EndToEnd.UploadIsTagged` | websocket/source/srv_websocket.cpp:70-76 | a report is tagged 65537 |
| `EndToEnd.RunArrives` | websocket/source/srv_websocket.cpp:90-103 | over every run: what the receiver gets at a heartbeat mentions a channel exactly when it never was reported or its sample changed since, and shows the sample |
| `EndToEnd.SampleArrives` | websocket/source/srv_websocket.cpp:90-103 | over every run, in the item of a channel: the codes as configured, the sample of this heartbeat, and the time of the last change |
| `Table.SizesCompared` | common/stringtable.c:11-19 | the documented size covers the text; the size that `s_table_create` tests for never does |
| `Table.WritesFitExactly` | common/stringtable.c:27-91 | for an accepted table every index written by `s_table_init` is in the block exactly when the block has the size of the text, the table is not the degenerate one and the title does not have 65 bytes |
| `Table.AcceptedWithoutRoom` | common/stringtable.c:94-125 | inputs that pass the tests of `s_table_create` for each of the three ways to fail |
| `Table.TitleLineIsWide` | common/stringtable.c:66-69 | of the accepted tables exactly one, one column of width 0 without a title, gives `memset` a negative size |
| `Table.IndexInRange` | common/stringtable.c:21-25 | the pointer of a cell is inside the array of pointers |
| `Table.IndexIsInjective` | common/stringtable.c:21-25 | different cells have different pointers |
| `Table.IndexIsOnto` | common/stringtable.c:21-25 | every pointer belongs to a cell |
| `Table.DrawLines` | common/stringtable.c:38-48 | the first phase: blank lines and borders with their line breaks, and the NUL |
| `Table.DrawBars` | common/stringtable.c:50-64 | the second phase: bars at the multiples of the column distance |
| `Table.DrawTitle` | common/stringtable.c:66-70 | the third phase: the lines are those of the empty grid with its title |
| `Table.TitleCoversBar` | common/stringtable.c:66-70 | the title overwrites the last bar of its line exactly when it is as long as the length test allows, or one byte shorter in a line of even width |
| `Table.SetPointers` | common/stringtable.c:72-85 | the fourth phase: each pointer leads to the cell of its row and column |
| `Table.TableInit` | common/stringtable.c:27-91 | all phases stay in the block, write nothing behind the text and draw the empty grid |
| `Table.Create` | common/stringtable.c:94-125 | null exactly for no memory, a small block or a long title; otherwise a table with the empty grid, wherever the writes fit |
| `Table.ValueSet` | common/stringtable.c:139-164 | 1 exactly if the cell exists and the value fits; then the text is that of the changed grid |
| `Table.SetShows` | common/stringtable.c:159-161 | writing a padded value over its cell changes the picture in this cell only |
| `Table.ValuesGet` | common/stringtable.c:166-188 | the next value, and the position behind its separators or null at the end |
| `Table.ValueSetMany` | common/stringtable.c:190-226 | the grid and the count after setting the values one by one |
| `Table.ValueSetXs` | common/stringtable.c:228-231 | along a row |
| `Table.ValueSetYs` | common/stringtable.c:233-236 | along a column |
| `Table.CountIsCellsSet` | common/stringtable.c:206-225 | the count is the number of consecutive cells that hold consecutive values; all other cells are as before |
| `Table.CountIsExact` | common/stringtable.c:206-225 | all counted cells exist, and counting stops because there is no next value, no next cell, or the value is too long |
| `Table.StringGet` | common/stringtable.c:245-253 | the text is the picture of the grid, and a NUL stands behind it |
| `Table.CellsAreApart` | common/stringtable.c:76-85 | the bytes of different cells are disjoint |
| `Table.CellsAvoidBorders` | common/stringtable.c:76-85 | no byte of a cell is in a border, the title line, a bar or a line break |
| `Table.BorderByte` | common/stringtable.c:38-64 | every byte of a border is an equals sign |
| `Table.CellByte` | common/stringtable.c:76-85 | in the line of a row, each bar and each byte of each cell at its place |
| `Table.TitleByte` | common/stringtable.c:66-70 | the title is in the middle of its line |
| `Table.ValueByte` | common/stringtable.c:159-161 | a value that is set is at the place of its cell, with blanks behind it |
| `Table.TextByte` | common/stringtable.c:38-48 | the lines of the text follow each other |
| `Table.ListIsRead` | common/stringtable.c:166-188 | of values with one or more separators between them the `n`th one read is the `n`th value, and behind the last nothing is left |
| `Table.ListIsSet` | common/stringtable.c:190-226 | if all values fit, as many cells are set as there are values, or cells up to the end of the row or column |
| `Table.SizesOfOne` | common/stringtable.c:11-115 | the sizes of one table, and the longest title that it takes |

## Left out

- Floating point: doubles are the numbers of 53 bits with any exponent, so overflow to infinity, subnormal
  numbers, NaN and the negative zero are left out, as is overflow of `valueint`; `n*10.0+d` is rounded
  twice, `pow` is rounded correctly, and `printf` prints the exact value, rounded to even. Of the
  arithmetic, `Floats.WholeIsReread` and `Floats.ParsePrintNumber` assume only that integers are exact.
- Overflow of `int` in sizes, depths and exponents.
- `cJSON_InitHooks`, the remaining creating functions (`cJSON_CreateNumber` and its like, the
  functions that create arrays of numbers or strings), `cJSON_AddItemReferenceToObject`, and
  `cJSON_DeleteItemFromArray` and `cJSON_DeleteItemFromObject`, which delete what the modelled functions detach.
- The bit `cJSON_IsReference` is a field of its own. Reading a freed node is not ruled out by the
  model; freeing it twice is, as a node must be live to be freed.
- Texts given to the parser and strings in caches are values, not arrays, so nobody changes them meanwhile.
- Dataflow.FormatHardwareData: requires memory for the three containers, which the source uses unchecked.
  All of `Websocket` assumes that memory does not run out (`Heap.Generous`), as the source takes the
  length of the text without looking whether there is one.
- Objects.AddItemToObject: requires that the new name is not the buffer of the old one, which the
  source has freed when it copies the new one.
- Dataflow.FormatHardwareParam: the names of types and the text of a value with its unit are unknown
  NUL-free strings; the name and unit tables, `%.1f` and the conversion of analog values are not modelled.
- Hardware.Device.ParamMonitor: requires a kind other than COL and TBD and ports 1 to 32, as the source
  otherwise uses an unset sample or an index out of range.
- Websocket.PackAndSend: requires that the text fits into the static buffer and into the buffer of the
  sender, and that no pointer is null; the source checks neither.
- Table.Create: of an accepted table, requires that the writes fit (`WritesFit`); the bytes that hold
  the header and the pointers are fields.
- Table.ValueSetMany: of the values that are read, requires at most 32 bytes, the size of the buffer in
  the source; and a separator other than NUL.
- Shared memory, clock, sockets, threads and `lws` callbacks: samples, times and the presence of a sender are inputs of
  each heartbeat. The loggers, the rate limiter, the configuration files and the test clients are left out.
- `s_table_create_0`, `s_table_valueget` and `show_hw_table`.
