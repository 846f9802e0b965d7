# Temperature monitor: a verified model

A Dafny model of the firmware of a room sensor with a small screen and a WiFi
radio, and proofs about the parts of it that are hard to get right:

- **JSON** (`cJSON.c`). The parser works on an offset into a buffer, the
  printer on a buffer that grows, and trees are nodes linked by `next`, `prev`
  and `child`, where the first child's `prev` is the last child. The model has
  the same objects: a `ParseBuffer`, a `PrintBuffer`, and a class `CJson` of
  nodes. A ghost `Shape` names the nodes of a tree, `Wf` says that the pointers
  agree with it, and `TreeOf` is the JSON value the nodes stand for. Every
  method is tied to a function on values (`JsonGrammar`, `JsonText`,
  `JsonLiteral`, `JsonCompare`), and the theorems are about those functions.
- **Drawing** (`OLED_GFX.c`). Lines, circles, filled circles, the bit-packed
  one-bit canvas in its four rotations, and the layout of text.
- **The screen** (`screen_msg_buffer.c`). Messages in a fixed pool, threaded into
  one doubly linked list per priority, and the word wrapper.
- **The main loop** (`Application.c`, `Remote.c`, `millis.c`). Timers with
  callbacks, and two network exchanges that share one socket. The answers of the
  radio are parameters: the proofs hold whatever they are.

`dafny verify dfyconfig.toml` checks everything. Modules follow the source:
`Json*` are the functions on values, `CJson*` the code on nodes and buffers,
`Gfx*` the drawing code, `MessageQueue` and `WordWrap` the screen,
`Timers` and `Application` the main loop. `Integers` and `Sequences` are shared.

## Main results

- A parse that asks for a NUL behind the value accepts exactly the documents of a
  syntax of its own, nested at most 1000 deep: any white space around every token, any
  number of at most 63 characters, and strings as the decoder takes them
  (`JsonSyntax.AcceptsExactly`). Literals are made of code points and of the escapes
  that the standards give for them (`JsonLiteral.ParseLiteral`), numbers of sign,
  digits, fraction and exponent (`JsonNumber.StrtodReads`).
- Parsing what was printed gives back the same tree, with key order and repeated
  keys, exactly if it is nested at most 1000 deep (`JsonRoundTrip.RoundTrip`) and the
  text of every number reads as the number (`JsonRoundTrip.RereadExact`); for `int`s it
  does. If 17 digits recover the other numbers, the tree that is read compares equal,
  as long as its keys are unique (`JsonRoundTrip.RereadCompares`).
- Every line of formatted text begins with one tab for each container that is open
  there (`JsonLayout.FormattedText`).
- The decoder for string literals runs over the text twice, and the two passes cut
  it into tokens differently. Whatever the input, the second pass stays inside the
  block that the first one sizes (`JsonString.TwoPassBound`), and what stands behind
  the closing quote changes nothing (`JsonString.ReadsToQuote`).
- Surgery on child lists is append, insert, remove and update on the sequence of
  children (`CJsonList`). An item that is still linked to another node breaks the
  list exactly if it is put behind other children.
- A recursive duplicate is an equal tree of new nodes (`CJsonDuplicate.Duplicate`).
  Comparison is equality of normal forms on trees with unique keys. On all trees of
  ints it holds exactly if the normal forms are equal and neither tree gives one key
  two values; so a tree can differ from its own duplicate, and
  `JsonCompare.RepeatedKeyDiffers` shows one that does. On nodes: a tree of ints compares
  equal to its duplicate, and to what is parsed from its printed text, exactly if no key
  has two values (`CJsonCopies`).
- `cJSON_Delete` frees exactly the nodes of a tree, each of them once, and a replacement
  frees none of the new list (`CJsonDelete`, `CJsonList.ReplaceItemViaPointer`).
- `writeLine` ends exactly if the larger major coordinate is less than 32767
  (`GfxLine.LoopEnds`). Then its pixels are within half a pixel of the ideal line
  exactly if the line spans at most 32767 (`GfxLine.LineExact`); a longer one leaves
  it within three pixels. The pixels do not depend on the direction.
- All pixels of `drawCircle` are within half a pixel of the circle exactly up to the
  radius 16556 and for 16642 and 16643; for the others the decision value wraps around
  (`GfxCircle.RadiusExact`). A filled circle draws each column exactly once, for every
  radius and also where its coordinates wrap around, and covers the outline; the
  heights of its columns fit in 16 bits exactly up to the radius 16383.
- A fast line on the canvas equals the plain loop of `drawPixel` on every picture,
  exactly if its far end is a 16-bit coordinate or what is drawn instead is out of
  sight (`GfxCanvas.FastLineExact`).
- `getTextBounds` returns the smallest box around the characters exactly if, in both
  directions, they end at 16-bit coordinates, extend over less than 65536 pixels, and
  reach column or row -1 (`GfxText.BoundsExact`); otherwise width or height can be lost
  (`GfxText.WidthLost`, `GfxText.HeightLost`). From a start on the screen only the
  last line has to fit (`GfxText.BoundsOnScreen`).
- The message queues stay disjoint, null-terminated lists under every operation, in
  every state, also those with a message on the screen. Deleting a message leaves a
  deleted message on the screen exactly if it was there and the only one of its queue
  (`MessageQueue.ScreenMessages.DeleteMessage`).
- But no public function puts the first message on the screen. In every run, the first
  refresh while a message is queued, and every `print_message` that finds a record, read
  the message on the screen through null, after which nothing is defined
  (`MessageQueue.ScreenMessages.Run`). The application does so in the first turn of its
  main loop in which time has passed (`MessageQueue.Startup`).
- A wrapped text fills a grid of as many characters to a line as fit, the last one also
  if it fits exactly (`GfxText.WrappedText`).
- A pass of the word wrapper shows all of the message, in order
  (`WordWrap.PassLosesNothing`). It cuts only words that fill a line from its second
  column at the latest (`WordWrap.CutsOnlyLongWords`). The word behind a line would not
  have fitted in it, except exactly if it ends at the margin, in front of a backquote
  or of the end of the text: such a word is put on a line of its own
  (`WordWrap.Greedy`, `WordWrap.RoomWasted`).
- A periodic timer does not depend on how time is cut into calls
  (`Timers.SplitIrrelevant`), over any run of the main loop (`Application.App.Run`).
- The waits for the time server and for the back end are never both pending, and
  from the first connection on the reconnect timer stands still exactly while there
  is a connection (`Application.App.Valid`, kept by every step).
- A connection survives a check exactly if the radio is on the network and the socket of
  an exchange is open and not closed by the other side: an idle device drops its
  connection at every check (`Application.App.Checked`).
- Over any run after the first connection (`Application.App.Run`): a wait for the time
  server ends in the first turn with a packet or a passed deadline, and the clock is set
  from the turn on in which a packet ends it; a wait for the back end ends in the first
  turn that finds its deadline passed or the server closed; after a loss, there is a
  connection from the first turn on in which an attempt meets the network, at the latest
  when the reconnect timer runs out (`Application.Reconnects`). After an ordinary start
  the clock is set by the first packet in time (`Application.FirstSync`).
- From the start, the radio connects before the deadline of its first attempt or never:
  a failed first attempt is the only one (`Application.FirstRun`). After a later loss
  there is an attempt in each call in which a deadline of the reconnect timer passes
  (`Application.App.Run`), and none is missed by calls at most 15 s apart
  (`Timers.NoDeadlineMissed`).

## Where code and comments disagree

The model follows the code.

- `cJSON.h` asks callers of `cJSON_PrintPreallocated` for five spare bytes; the code
  needs exactly one behind the NUL.
- `get_next_disp_msg` says that it jumps to the next priority; its search starts with
  the queue on the screen, which is not empty, so the display never leaves a queue
  while it has a message (`MessageQueue.ScreenMessages.NextStaysInQueue`).
- `screen_msg_buffer.c` says that all queues are empty if nothing is on the screen; the
  queues fill while nothing ever is. `print_message` and the refresh then read through
  null, which the model reports as a fault.
- `print_message_repeat` does not check the priority that `new_message` asserts; a larger
  one is an index behind the queues, which the model reports as a fault.
- `writeLine` does not end if the larger major coordinate is 32767; its method requires a
  smaller one.

## Model

| member | source | states |
|---|---|---|
| JsonString.Utf8RoundTrip | Temp Monitor/src/cJSON.c:715-765 | the bytes written for a code point are its UTF-8 encoding (RFC 3629, section 3): a UTF-8 reader gets it back |
| JsonString.UnitRoundTrip | Temp Monitor/src/cJSON.c:615-649 | the four hexadecimal digits of every 16-bit unit, each in either case, read back as the unit |
| JsonString.SurrogateRoundTrip | Temp Monitor/src/cJSON.c:669-707 | a surrogate pair is combined to a code point exactly if it is its pair by RFC 2781, section 2.1 |
| JsonString.UnitTokens | Temp Monitor/src/cJSON.c:652-770 | a `\u` escape, even with digits that are none, writes no more bytes than the first pass counted tokens under it |
| JsonString.SecondPassFits | Temp Monitor/src/cJSON.c:786-877 | in step with the first pass the second writes at most one byte per token left; one byte out of step at most one more |
| JsonString.SecondPassStops | Temp Monitor/src/cJSON.c:822-874 | the second pass stops at the closing quote, at most one byte behind it, or at a bad escape in front of it |
| JsonString.TwoPassBound | Temp Monitor/src/cJSON.c:786-877 | for every input the decoded bytes and the NUL fit in the block that the first pass sizes |
| JsonString.ReadsToQuote | Temp Monitor/src/cJSON.c:786-877 | wherever they stand, equal bytes up to the closing quote have the same end of the literal and decode to the same: nothing in front of the opening and nothing behind the closing quote is read |
| JsonLiteral.ParseLiteral | Temp Monitor/src/cJSON.c:773-899 | a literal of plain bytes, the eight short escapes (RFC 8259, section 7), escaped units and the surrogate pairs of code points, digits in either case, decodes to its code points |
| JsonLiteral.ShortEscapes | Temp Monitor/src/cJSON.c:836-857 | the short escapes that are decoded are those of the standard, with their meaning |
| JsonLiteral.ExtraIsExact | Temp Monitor/src/cJSON.c:928-953 | the number of extra bytes that the printer counts beforehand is exact |
| JsonLiteral.EscapeIsLiteral | Temp Monitor/src/cJSON.c:955-1021 | an escaped string is a well-formed literal that means the string |
| JsonLiteral.StringRoundTrip | Temp Monitor/src/cJSON.c:773-1021 | parsing a printed string gives back every NUL-free string |
| JsonNumber.DecimalLength | Temp Monitor/src/cJSON.c:545-612 | a printed `int` has at most eleven characters, so it fits the number buffer |
| JsonNumber.NumberRoundTrip | Temp Monitor/src/cJSON.c:305-378 | reading a printed `int` gives it back unless a number character follows |
| JsonNumber.IntsPrintAsInt | Temp Monitor/src/cJSON.c:545-571 | of all real numbers, the `%d` branch is taken for exactly those that are ints |
| JsonNumber.FractionCutOff | Temp Monitor/src/cJSON.c:361-373 | within the range of `int` the stored `int` is the number without its fraction |
| JsonNumber.StrtodReads | Temp Monitor/src/cJSON.c:353 | every number, with or without sign, fraction and exponent, is read to its end, as the whole part plus the fraction, shifted by the exponent |
| JsonNumber.StrtodWrites | Temp Monitor/src/cJSON.c:353 | what is read is such a number |
| JsonNumber.NumberParses | Temp Monitor/src/cJSON.c:305-378 | in a buffer, a number of at most 63 characters that no number character follows |
| JsonGrammar.NestingBounded | Temp Monitor/src/cJSON.c:1441-1711 | an accepted value never has more containers open than the limit |
| JsonGrammar.LimitMonotone | Temp Monitor/src/cJSON.c:1441-1711 | a value accepted under a limit is the same under a larger one: the limit only rejects |
| JsonGrammar.Parse | Temp Monitor/src/cJSON.c:1079-1172 | positions reported for errors and ends lie in the string; a strict parse consumes all of it |
| JsonSyntax.ValueAccepted | Temp Monitor/src/cJSON.c:1312-1364 | every spelling of a value, with white space around every token, parses to the value and ends where the spelling ends, at any place and depth |
| JsonSyntax.ItemsAccepted | Temp Monitor/src/cJSON.c:1476-1513 | the items of an array |
| JsonSyntax.MembersAccepted | Temp Monitor/src/cJSON.c:1635-1685 | the members of an object, with white space in front of and behind the colon |
| JsonSyntax.ValueSpelled | Temp Monitor/src/cJSON.c:1312-1364 | what is parsed is a spelling of the value: from the start to the end that is reported |
| JsonSyntax.DocumentParses | Temp Monitor/src/cJSON.c:1079-1172 | a value between white space, perhaps behind a byte order mark, is accepted exactly if it is nested at most 1000 deep |
| JsonSyntax.AcceptsExactly | Temp Monitor/src/cJSON.c:1079-1172 | a strict parse accepts exactly the documents, each with its value |
| JsonRoundTrip.ValueRoundTrip | Temp Monitor/src/cJSON.c:1312-1438 | at any place in a buffer and any depth, the printed text of a tree parses to the tree that the texts of its numbers read as, and ends where the text ends |
| JsonRoundTrip.RoundTrip | Temp Monitor/src/cJSON.c:1079-1825 | the whole-tree round trip for all trees without raw items, formatted or not, exactly if nested at most 1000 deep; `sprintf` only has to give texts of numbers |
| JsonRoundTrip.WordText | Temp Monitor/src/cJSON.c:1367-1825 | printed text is a spelling |
| JsonRoundTrip.RereadExact | Temp Monitor/src/cJSON.c:565-581 | the tree that is read is the tree that was printed exactly if the chosen text of every number that is no `int` reads as the number |
| JsonRoundTrip.IntsReadable | Temp Monitor/src/cJSON.c:565-571 | with nothing but `int`s and nothing raw there is nothing to ask of `sprintf` |
| JsonRoundTrip.RereadCompares | Temp Monitor/src/cJSON.c:569-581 | with unique keys, and 17 digits that recover every number, the tree that is read compares equal, whichever of the two texts was chosen |
| JsonLayout.FormattedText | Temp Monitor/src/cJSON.c:1714-1825 | as read from the bytes: every line begins with a tab for each open container, and all containers are closed |
| JsonCompare.CompareSymmetric | Temp Monitor/src/cJSON.c:2986-3109 | comparison does not depend on the order of its arguments, for all trees |
| JsonCompare.SameKey | Temp Monitor/src/cJSON.c:133-154 | names have one key exactly if they are equal, or equal letter by letter in either case |
| JsonCompare.IntsClose | Temp Monitor/src/cJSON.c:538-542 | the tolerance of `compare_double` never confuses two ints |
| JsonCompare.CompareExact | Temp Monitor/src/cJSON.c:2986-3109 | on trees of ints: equal normal forms, and neither tree gives one key two values |
| JsonCompare.CompareUnique | Temp Monitor/src/cJSON.c:2986-3109 | on trees with unique keys: order-insensitive equality of normal forms, up to the tolerance for numbers |
| JsonCompare.AlikeSymmetric | Temp Monitor/src/cJSON.c:538-542 | equality of normal forms up to the tolerance is symmetric |
| JsonCompare.UniqueKeysReflexive | Temp Monitor/src/cJSON.c:2986-3109 | a tree with unique keys equals itself, hence its duplicate |
| JsonCompare.CompareSelf | Temp Monitor/src/cJSON.c:2986-3109 | a tree of ints equals itself exactly if no key has two values |
| JsonCompare.RepeatedKeyDiffers | Temp Monitor/src/cJSON.c:3067-3102 | an object with a repeated key that differs from itself |
| CJsonParser.ParseHex4 | Temp Monitor/src/cJSON.c:615-649 | the value of four hexadecimal digits, 0 if one is not a digit |
| CJsonParser.EncodeUtf8 | Temp Monitor/src/cJSON.c:715-765 | writes exactly the UTF-8 bytes behind the bytes already written |
| CJsonParser.Utf16LiteralToUtf8 | Temp Monitor/src/cJSON.c:652-770 | consumes one escape or a surrogate pair and appends its encoding, or fails and writes nothing |
| CJsonParser.FindQuote | Temp Monitor/src/cJSON.c:786-807 | the first pass: where the literal closes and how many escapes it skipped |
| CJsonParser.DecodeInto | Temp Monitor/src/cJSON.c:821-877 | the second pass writes inside the block and leaves the decoded C string in it |
| CJsonParser.CopyNumber | Temp Monitor/src/cJSON.c:318-351 | copies the longest run of number characters that fits |
| CJsonParser.ParseBuffer.SkipWhitespace | Temp Monitor/src/cJSON.c:1038-1061 | ends at the next visible byte or the last byte, never before its start |
| CJsonParser.ParseBuffer.ParseString | Temp Monitor/src/cJSON.c:773-899 | result, offset and stored string are those of the specified decoder |
| CJsonParser.ParseBuffer.ParseNumber | Temp Monitor/src/cJSON.c:305-378 | reads the specified number and stores its saturated int |
| CJsonParser.ParseBuffer.ParseValue | Temp Monitor/src/cJSON.c:1312-1364 | accepts exactly the grammar; the node then stands for the value, and the depth is restored |
| CJsonParser.ParseBuffer.ParseArray | Temp Monitor/src/cJSON.c:1441-1536 | the linked children are the items, in order; the first `prev` is the tail |
| CJsonParser.ParseBuffer.ParseObject | Temp Monitor/src/cJSON.c:1601-1711 | the linked children are the members with their names, in order |
| CJsonParser.ParseBuffer.SkipUtf8Bom | Temp Monitor/src/cJSON.c:1064-1076 | skips a byte order mark only if more than a byte follows it |
| CJsonParser.ParseWithOpts | Temp Monitor/src/cJSON.c:1079-1172 | a well-formed tree of new nodes for the parsed value, or null and the error position |
| CJsonPrinter.PrintBuffer.Ensure | Temp Monitor/src/cJSON.c:439-522 | room for the bytes asked for and one more, with the text so far kept; without a buffer, or with an offset behind its end, it fails and changes nothing |
| CJsonPrinter.PrintBuffer.UpdateOffset | Temp Monitor/src/cJSON.c:525-535 | the NUL it looks for is inside the buffer and ends the printed text |
| CJsonPrinter.PrintBuffer.PrintStringPtr | Temp Monitor/src/cJSON.c:902-1021 | appends exactly the escaped string, or two quotes for null, within the length |
| CJsonPrinter.PrintBuffer.PrintNumber | Temp Monitor/src/cJSON.c:545-612 | appends the text of the number: as an `int`, or with 15 digits, or with 17 if the 15 do not recover it |
| CJsonPrinter.PrintBuffer.PrintValue | Temp Monitor/src/cJSON.c:1367-1438 | the growing buffer refines concatenation: the text of the tree follows what was there, and it fails exactly if the largest buffer is too small |
| CJsonPrinter.PrintBuffer.PrintArray | Temp Monitor/src/cJSON.c:1539-1598 | the same for arrays |
| CJsonPrinter.PrintBuffer.PrintObject | Temp Monitor/src/cJSON.c:1714-1825 | the same for objects |
| CJsonPrinter.PrintPreallocated | Temp Monitor/src/cJSON.c:1292-1309 | true exactly if there is a buffer in which the text and two bytes fit, and then the whole NUL-terminated text is there |
| CJsonPrinter.Print | Temp Monitor/src/cJSON.c:1187-1249 | a block with exactly the text and its NUL, unless memory runs out or the text is too long |
| CJsonNode.SuffixObject | Temp Monitor/src/cJSON.c:1928-1932 | linking behind the last node extends the chain and changes no tree |
| CJsonNode.CloseList | Temp Monitor/src/cJSON.c:1515-1527 | setting the first `prev` makes the chain a child list |
| CJsonNode.RootLinksIrrelevant | Temp Monitor/src/cJSON.c:1928-1932 | the sibling pointers of a root are not part of its tree |
| CJsonNode.FinishContainer | Temp Monitor/src/cJSON.c:1515-1527 | a finished list makes its container the array or object of those entries |
| CJsonList.GetArrayItem | Temp Monitor/src/cJSON.c:1851-1867 | the child at the index, null behind the end |
| CJsonList.AppendNode | Temp Monitor/src/cJSON.c:1956-1987 | through the first `prev`, the node joins the end of the child list; the result is a child list exactly if there were no children or the node's `next` was null |
| CJsonList.InsertNode | Temp Monitor/src/cJSON.c:2278-2289 | the node is inserted in front of the given child |
| CJsonList.DetachNode | Temp Monitor/src/cJSON.c:2194-2218 | the child list is the one without that node, whose links are cleared |
| CJsonList.ReplaceNode | Temp Monitor/src/cJSON.c:2304-2335 | the new node takes the old one's place |
| CJsonList.ContainerOwns | Temp Monitor/src/cJSON.c:1956-1987 | a well-formed container owns its child list |
| CJsonList.OwnedContainer | Temp Monitor/src/cJSON.c:1956-1987 | after surgery the container stands for the value with the new entries |
| CJsonList.AddItemToArray | Temp Monitor/src/cJSON.c:1956-1993 | the container owns the entries from before and the new one, exactly under that condition; null or itself is refused and nothing changes |
| CJsonList.AddItemToObject | Temp Monitor/src/cJSON.c:2011-2051 | the same, under the given name |
| CJsonList.InsertItemInArray | Temp Monitor/src/cJSON.c:2263-2290 | inserts at the index, or at the end behind it, where again the item must be linked to nothing; a negative index is refused |
| CJsonList.DetachItemViaPointer | Temp Monitor/src/cJSON.c:2187-2221 | the entry leaves the list; the detached tree is whole, with the same value |
| CJsonList.DetachItemFromArray | Temp Monitor/src/cJSON.c:2223-2231 | the same by index |
| CJsonList.ReplaceItemViaPointer | Temp Monitor/src/cJSON.c:2292-2339 | the entry is exchanged and the old tree freed, each of its nodes once and none of the new list; replacing a node by itself changes nothing |
| CJsonList.ReplaceItemInArray | Temp Monitor/src/cJSON.c:2341-2349 | the same by index |
| CJsonDelete.Delete | Temp Monitor/src/cJSON.c:253-274 | gives the nodes of the trees to the deallocator, children before their parent |
| CJsonDelete.FreedAll | Temp Monitor/src/cJSON.c:253-274 | what is freed is exactly the nodes of the trees |
| CJsonDelete.FreedOnce | Temp Monitor/src/cJSON.c:253-274 | no node is freed twice |
| CJsonCreate.CreateDoubleArray | Temp Monitor/src/cJSON.c:2625-2663 | a well-formed array of new nodes for the first `count` numbers; none for a negative count or a null pointer |
| CJsonCreate.CreateStringArray | Temp Monitor/src/cJSON.c:2665-2703 | the same for strings; none if one of them is null |
| CJsonDuplicate.Duplicate | Temp Monitor/src/cJSON.c:2706-2787 | new nodes only, unlinked, same name; an equal tree, or the childless root if not recursive |
| CJsonCompare.CaseInsensitiveStrcmp | Temp Monitor/src/cJSON.c:133-154 | 0 exactly for strings that are equal in lower case |
| CJsonCompare.GetObjectItem | Temp Monitor/src/cJSON.c:1880-1910 | the first child of that name; a case-sensitive search gives up at a child without a name |
| CJsonCompare.FindEntryFirst | Temp Monitor/src/cJSON.c:1880-1910 | in an object that is the first member with that key |
| CJsonCompare.SameRoot | Temp Monitor/src/cJSON.c:3011-3015 | a node has one tree: what justifies the shortcut for identical pointers |
| CJsonCompare.CompareArrays | Temp Monitor/src/cJSON.c:3045-3065 | arrays in step: the result is that of the comparison on values |
| CJsonCompare.CompareObjects | Temp Monitor/src/cJSON.c:3067-3102 | both passes: the result is that of the comparison on values |
| CJsonCompare.CompareNodes | Temp Monitor/src/cJSON.c:2986-3109 | on trees that share no node or repeat no key, the result is that of the comparison on values; a node equals itself |
| CJsonCopies.CompareWithDuplicate | Temp Monitor/src/cJSON.c:2706-3109 | a tree compares equal to its duplicate exactly if it does to itself: for ints if no key has two values, and always with unique keys |
| CJsonCopies.CompareWithParsedPrint | Temp Monitor/src/cJSON.c:1079-3109 | printing, parsing and comparing on nodes: the text parses exactly if the tree is nested at most 1000 deep, in new nodes, to the same tree exactly if the texts of its numbers read as the numbers; it compares equal for `int`s exactly if no key has two values, and with unique keys if 17 digits recover the numbers |
| GfxLine.WriteLine | Temp Monitor/src/OLED_GFX.c:132-173 | the pixels of the 16-bit loop in order, for all end points for which it ends; up to a span of 32767 one per major coordinate, the minor one rounded to the nearest, halves toward the start |
| GfxLine.LoopEnds | Temp Monitor/src/OLED_GFX.c:160-171 | the loop ends exactly if the larger major coordinate is not 32767, and then after one turn per major coordinate |
| GfxLine.AfterRounds | Temp Monitor/src/OLED_GFX.c:148-171 | up to a span of 32767 nothing wraps around: the loop variables are those of the rounded line |
| GfxLine.LongLineStrays | Temp Monitor/src/OLED_GFX.c:148-171 | a longer line leaves the ideal line within three pixels |
| GfxLine.LineExact | Temp Monitor/src/OLED_GFX.c:132-173 | all pixels are within half a pixel of the ideal line exactly if it spans at most 32767 |
| GfxLine.ErrorBound | Temp Monitor/src/OLED_GFX.c:152-171 | the loop's error term bounds the distance from the line by half a pixel |
| GfxLine.RoundedUnique | Temp Monitor/src/OLED_GFX.c:152-171 | the error term determines the number of steps taken |
| GfxLine.LineIsClose | Temp Monitor/src/OLED_GFX.c:132-173 | every pixel is within half a pixel of the ideal line through the given end points |
| GfxLine.LineHitsEnds | Temp Monitor/src/OLED_GFX.c:132-173 | the first and the last pixel are the end points |
| GfxLine.LineReversed | Temp Monitor/src/OLED_GFX.c:137-146 | drawn from the other end, the line has the same pixels |
| GfxCircle.NextPoint | Temp Monitor/src/OLED_GFX.c:373-381 | a turn keeps `f = (x+1)^2 + y^2 - y - r^2`, `ddF_x = 2x+1`, `ddF_y = -2y`, all as stored in 16 bits, for every radius |
| GfxCircle.OctantClose | Temp Monitor/src/OLED_GFX.c:373-391 | for the good radii the decision value stays in 16 bits, and every point of the octant satisfies `abs(x^2 + y^2 - r^2) <= y` |
| GfxCircle.DrawCircle | Temp Monitor/src/OLED_GFX.c:357-394 | the pixels in order, as stored in 16 bits: four, and eight reflections of every octant point until `x >= y` |
| GfxCircle.CircleStored | Temp Monitor/src/OLED_GFX.c:357-394 | where the bounding square has 16-bit coordinates, these are the pixels of the circle itself |
| GfxCircle.CircleClose | Temp Monitor/src/OLED_GFX.c:357-394 | for the good radii every plotted pixel is within half a pixel of the circle |
| GfxCircle.BadStep | Temp Monitor/src/OLED_GFX.c:373-381 | for every other radius the second decision wraps around, and the octant leaves the circle |
| GfxCircle.RadiusExact | Temp Monitor/src/OLED_GFX.c:357-394 | all pixels are within half a pixel of the circle exactly for the radii up to 16556, 16642 and 16643 |
| GfxCircle.FillCircleHelper | Temp Monitor/src/OLED_GFX.c:471-511 | the columns in order, as stored in 16 bits, for any corners and offset, over the same octant |
| GfxCircle.FillCircle | Temp Monitor/src/OLED_GFX.c:452-458 | the centre column and those of the helper |
| GfxCircle.CountFill | Temp Monitor/src/OLED_GFX.c:484-510 | after each turn the columns up to `x` and those beyond the octant are drawn, once |
| GfxCircle.FillOnce | Temp Monitor/src/OLED_GFX.c:452-511 | each column from `x0 - r` to `x0 + r` is drawn exactly once, and no other |
| GfxCircle.FillOnceStored | Temp Monitor/src/OLED_GFX.c:452-511 | also as stored in 16 bits, where the circle leaves the range of coordinates |
| GfxCircle.FillStretched | Temp Monitor/src/OLED_GFX.c:478-512 | the offset makes every column exactly that much longer |
| GfxCircle.HeightsFit | Temp Monitor/src/OLED_GFX.c:452-511 | the heights of the columns fit in 16 bits exactly up to the radius 16383 |
| GfxCircle.OutlineFilled | Temp Monitor/src/OLED_GFX.c:357-511 | every pixel of `drawCircle` is in a column of `fillCircle` |
| GfxCircle.ColumnsEndOnOutline | Temp Monitor/src/OLED_GFX.c:357-511 | every column ends at pixels of `drawCircle`: the fill does not stick out |
| GfxCircle.EndsOnce | Temp Monitor/src/OLED_GFX.c:373-510 | outline and fill make the same number of turns |
| GfxCanvas.GFXcanvas1.constructor | Temp Monitor/src/OLED_GFX.c:1763-1768 | all pixels are off; the buffer has a place for every pixel exactly if the number of bytes is less than 65536 |
| GfxCanvas.QuarterTurn | Temp Monitor/src/OLED_GFX.c:1316-1330 | the four rotations are successive quarter turns of the view |
| GfxCanvas.ViewRaw | Temp Monitor/src/OLED_GFX.c:1793-1808 | in every rotation the view and the bitmap correspond one to one |
| GfxCanvas.GFXcanvas1.DrawPixel | Temp Monitor/src/OLED_GFX.c:1788-1824 | exactly the bit of that view pixel takes the colour; outside the view nothing changes |
| GfxCanvas.GFXcanvas1.GetRawPixel | Temp Monitor/src/OLED_GFX.c:1867-1881 | the bit at the bitmap position, off outside |
| GfxCanvas.GFXcanvas1.GetPixel | Temp Monitor/src/OLED_GFX.c:1835-1854 | the pixel of the turned view for every coordinate, off outside, also where the 16-bit rotation wraps |
| GfxCanvas.RunBit | Temp Monitor/src/OLED_GFX.c:1905-2110 | the plain loop of `drawPixel` colours exactly the visible pixels of the run |
| GfxCanvas.GFXcanvas1.DrawFastRawVLine | Temp Monitor/src/OLED_GFX.c:2016-2044 | exactly the bits of that stretch of the column change |
| GfxCanvas.GFXcanvas1.DrawFastRawHLine | Temp Monitor/src/OLED_GFX.c:2055-2110 | exactly the bits of that stretch of the row change, across partial and whole bytes |
| GfxCanvas.StartMask | Temp Monitor/src/OLED_GFX.c:2066-2076 | the mask has the bits from the start to the end of the byte or of the line |
| GfxCanvas.GFXcanvas1.DrawFastVLine | Temp Monitor/src/OLED_GFX.c:1905-1950 | the plain loop of `drawPixel` over the line, for every rotation, position, length of either sign and colour; where 16-bit coordinates wrap around, the run that is drawn instead |
| GfxCanvas.GFXcanvas1.DrawFastHLine | Temp Monitor/src/OLED_GFX.c:1961-2005 | the same for horizontal lines |
| GfxCanvas.FastLineExact | Temp Monitor/src/OLED_GFX.c:1905-2005 | on every picture a fast line equals the plain loop, exactly if its far end does not wrap around or what is drawn or lost instead cannot be seen |
| GfxText.Adafruit_GFX.Write | Temp Monitor/src/OLED_GFX.c:1242-1257 | where the character is drawn and where the cursor goes |
| GfxText.Adafruit_GFX.PrintText | Temp Monitor/src/OLED_GFX.c:1242-1257 | the characters of a text by repeated `write` |
| GfxText.WrappedText | Temp Monitor/src/OLED_GFX.c:1240-1256 | printed from the left margin with wrapping on, the characters stand on a grid with as many to a line as fit in the width |
| GfxText.Adafruit_GFX.CharBounds | Temp Monitor/src/OLED_GFX.c:1411-1432 | moves like `write` and grows the box by the character; its ends are compared as they are and stored in 16 bits |
| GfxText.Adafruit_GFX.GetTextBounds | Temp Monitor/src/OLED_GFX.c:1448-1474 | the rectangle of the box that the loop collects over the characters that `write` would draw, with 16-bit corners, width and height, for every text |
| GfxText.AxisExact | Temp Monitor/src/OLED_GFX.c:1411-1474 | on one axis the returned edge and length are the tightest around the characters exactly if their ends and their extent fit in 16 bits and they reach -1 |
| GfxText.BoundsExact | Temp Monitor/src/OLED_GFX.c:1448-1474 | the returned rectangle is the smallest box around the characters of the text exactly if this holds on both axes |
| GfxText.WidthWraps | Temp Monitor/src/OLED_GFX.c:1463-1472 | a text of two characters, 65536 pixels apart, whose width is returned as 0 |
| GfxText.WidthLost | Temp Monitor/src/OLED_GFX.c:1421-1424 | one whose last column is 32768, which is stored as the maximum -32768: the width is 0 |
| GfxText.HeightLost | Temp Monitor/src/OLED_GFX.c:1421-1426 | the same for the height, from a start on the screen |
| GfxText.BoundsOnScreen | Temp Monitor/src/OLED_GFX.c:1448-1474 | from a non-negative start, with a cursor that stays in 16 bits, it is the smallest box exactly if the last line fits |
| GfxText.Adafruit_GFX.SetTextSize | Temp Monitor/src/OLED_GFX.c:1305-1308 | a size of 0 becomes 1 |
| MessageQueue.ScreenMessages.constructor | Temp Monitor/src/screen_msg_buffer.c:33-43 | all records are free, the queues empty, nothing is on the screen, and the display is due |
| MessageQueue.ScreenMessages.GetFreeMsg | Temp Monitor/src/screen_msg_buffer.c:83-100 | a free record, or none exactly if an assertion stops the program |
| MessageQueue.ScreenMessages.AppendQueue | Temp Monitor/src/screen_msg_buffer.c:103-120 | the message joins the end of the list of its priority; the others stay |
| MessageQueue.ScreenMessages.InsertQueueNext | Temp Monitor/src/screen_msg_buffer.c:123-143 | the message follows the one on the screen and takes its priority |
| MessageQueue.ScreenMessages.PopQueueMsg | Temp Monitor/src/screen_msg_buffer.c:145-160 | the message leaves its list |
| MessageQueue.ScreenMessages.GetNextDispMsg | Temp Monitor/src/screen_msg_buffer.c:163-186 | the next message of the queue on the screen, around its end; the first of the first queue if there is none on the screen |
| MessageQueue.ScreenMessages.NextStaysInQueue | Temp Monitor/src/screen_msg_buffer.c:176-183 | the display never leaves a queue that has a message |
| MessageQueue.ScreenMessages.DispNextMessage | Temp Monitor/src/screen_msg_buffer.c:189-199 | shows that message for its time |
| MessageQueue.ScreenMessages.NewMessage | Temp Monitor/src/screen_msg_buffer.c:206-229 | a record that was free, with the text, at the end of its queue; none exactly if an assertion fails |
| MessageQueue.ScreenMessages.DeleteMessage | Temp Monitor/src/screen_msg_buffer.c:231-243 | the message leaves its list and is free; a freed message stays on the screen exactly if it was the only one of its queue |
| MessageQueue.ScreenMessages.PrintMessage | Temp Monitor/src/screen_msg_buffer.c:247-269 | a one-time message behind the one on the screen, shown at once if that one stays for good; a fault exactly if a record is found and nothing is on the screen |
| MessageQueue.ScreenMessages.PrintMessageRepeat | Temp Monitor/src/screen_msg_buffer.c:271-290 | a record at the end of its queue, to be shown so many times; a fault exactly if a record is found and the priority is larger than the lowest |
| MessageQueue.ScreenMessages.UpdatePriority | Temp Monitor/src/screen_msg_buffer.c:292-300 | the message moves to the end of the list of its new priority; a priority that is none fails the assertion |
| MessageQueue.ScreenMessages.RefreshScreenMsgMs | Temp Monitor/src/screen_msg_buffer.c:330-357 | when its time is up a message makes room for the next, and an expired one leaves its list; a fault, which changes nothing, exactly if the display is due and nothing is on it |
| MessageQueue.ScreenMessages.Call | Temp Monitor/src/screen_msg_buffer.c:206-357 | from a blank screen every call that returns leaves it blank, with all queued messages counted |
| MessageQueue.ScreenMessages.Run | Temp Monitor/src/screen_msg_buffer.c:206-357 | in any run from the beginning no `print_message` succeeds, and the first refresh while a message is queued is a fault, which leaves as many queued as before |
| MessageQueue.Startup | Temp Monitor/src/Application.c:210-239 | the two messages of the start and the refresh of the first turn in which time has passed: a fault, with both messages queued |
| MessageQueue.BehindInserted | Temp Monitor/src/screen_msg_buffer.c:132-142 | a message inserted behind another is the next to be shown |
| WordWrap.LineBuffer.GetNextLine | Temp Monitor/src/screen_msg_buffer.c:360-434 | line, text pointer, pending break and result, for every text and state |
| WordWrap.CallAdvances | Temp Monitor/src/screen_msg_buffer.c:360-434 | a call moves on, or emits the one pending blank line, or finishes the pass |
| WordWrap.CallShows | Temp Monitor/src/screen_msg_buffer.c:360-434 | despite backtracking a line shows exactly the text between the old and the new position |
| WordWrap.CallCopies | Temp Monitor/src/screen_msg_buffer.c:374-431 | the line is a stretch of the text from the old position on, padded with spaces, and at most one space or backquote behind it is left out |
| WordWrap.CallEnds | Temp Monitor/src/screen_msg_buffer.c:374-396 | a pass ends exactly if the rest of the text is shorter than a line and has no backquote |
| WordWrap.BreakWaits | Temp Monitor/src/screen_msg_buffer.c:383-388 | a line that meets a backquote ends behind it, and a blank line will follow |
| WordWrap.CutsOnlyLongWords | Temp Monitor/src/screen_msg_buffer.c:398-432 | a call that stops within a word has filled its line, without a space in columns 1 to 18 |
| WordWrap.SkipsOneSpace | Temp Monitor/src/screen_msg_buffer.c:405-429 | no line begins with the space behind the last word of the line before |
| WordWrap.Greedy | Temp Monitor/src/screen_msg_buffer.c:398-432 | the word behind a line would not have fitted, except exactly if it ends at the margin in front of a backquote or the end of the text |
| WordWrap.RoomWasted | Temp Monitor/src/screen_msg_buffer.c:405-424 | a text of 20 characters that is put on two lines |
| WordWrap.PassLosesNothing | Temp Monitor/src/screen_msg_buffer.c:360-434 | the lines of a pass show all of the text that is left, in order, and the pass ends |
| WordWrap.MessageShown | Temp Monitor/src/screen_msg_buffer.c:360-434 | a pass from the beginning shows the whole message |
| Timers.PhaseStep | Temp Monitor/src/Application.c:222-234 | time that passes in two calls leaves a timer where one call would |
| Timers.FiresAtDeadline | Temp Monitor/src/Application.c:222-234 | the callback is due in exactly the calls in which a deadline passes |
| Timers.SplitIrrelevant | Temp Monitor/src/Application.c:222-234 | the timer depends on the total time only: `interval - ((T - t0) mod interval)` once it has fired |
| Timers.NoDeadlineMissed | Temp Monitor/src/Application.c:222-234 | calls at most an interval apart find the callback due as often as there are deadlines |
| Timers.OneShot | Temp Monitor/src/Application.c:222-234 | a timer without an interval counts down once and stops |
| Timers.Millis.SysTick | Temp Monitor/src/millis.c:14-16 | the counter is the true time modulo 2^32 |
| Timers.Millis.ElapsedMS | Temp Monitor/src/millis.c:37-44 | the time since the last call exactly if that was less than 65536 ms ago |
| Timers.ReadingsSum | Temp Monitor/src/millis.c:37-44 | calls less than 65536 ms apart lose no time |
| Timers.TimerKeepsTime | Temp Monitor/src/Application.c:214-241 | driven by `elapsedMS`, a periodic timer shows the true phase |
| Application.App.constructor | Temp Monitor/src/Remote.c:76-94 | the first attempt to connect is under way, with its deadline; nothing is waiting, and the timers are loaded |
| Application.App.LoadTimers | Temp Monitor/src/Application.c:172-197 | the timers after start: all that have an interval, except the one for reconnecting |
| Application.App.SendNTPpacket | Temp Monitor/src/Remote.c:131-164 | the wait begins exactly if there is a socket, which then is the time server's |
| Application.App.GetTime | Temp Monitor/src/Remote.c:118-128 | not while the back end is to answer; a failure sets the timer for the next attempt |
| Application.App.CheckNtpResponse | Temp Monitor/src/Remote.c:167-220 | the wait ends with a packet or at its deadline, and then the socket is closed |
| Application.App.RemoteSync | Temp Monitor/src/Remote.c:224-276 | only while nothing is waiting, with the clock set and the radio on the network |
| Application.App.ConnectSSLHost | Temp Monitor/src/WiFiClient.c:109-136 | takes over the socket, whoever had it |
| Application.App.CheckBEResponse | Temp Monitor/src/Remote.c:279-307 | the wait ends at its deadline, which every byte moves, or when the server closes |
| Application.App.SetWifiConnectionState | Temp Monitor/src/Application.c:376-400 | a new connection stops the reconnect timer, a lost one starts it and connects again |
| Application.App.CheckWifiConnecting | Temp Monitor/src/Remote.c:379-392 | an attempt ends with a connection or at its deadline, never with another attempt |
| Application.App.WifiCheckConnectionStatus | Temp Monitor/src/Application.c:365-369 | notices a lost connection, and takes one without an open socket for lost; does nothing without a connection |
| Application.App.Checked | Temp Monitor/src/WiFiClient.c:318-324 | after a check the connection stands exactly if it did before, the radio is on the network and the socket is open with a client that is not closed; then an exchange is under way |
| Application.App.WifiReconnectCallback | Temp Monitor/src/Application.c:357-362 | one more attempt to connect |
| Application.App.RunRemote | Temp Monitor/src/Remote.c:394-399 | both waits and the connection attempt end exactly by their own answers and deadlines; the first connection is the end of an attempt |
| Application.App.UpdateTimers | Temp Monitor/src/Application.c:214-241 | which callbacks are due and what every timer is afterwards, also when motion reloads that of the screen; back end and connection check come due together once their timers are equal; while disconnected, a connection attempt whenever the reconnect timer runs out |
| Application.App.MainLoopTurn | Temp Monitor/src/main.c:169-170 | a turn of the main loop from any state: the periodic timers, both waits, the clock, the connection and the attempts, each as the answers of the turn say; without a first connection nothing but the first attempt |
| Application.App.Run | Temp Monitor/src/Application.c:153-241 | over any run: never two waits, the reconnect timer stands still exactly while connected, periodic timers keep their phase; waits and attempts end in the first turn whose answers end them; the first attempt succeeds before its deadline or fails for good; without a network, one attempt per call in which a deadline of the reconnect timer passes |
| Application.FirstRun | Temp Monitor/src/Application.c:153-241 | from the start: connected at some time exactly if the network is there in a turn before which none found the deadline of the first attempt passed; otherwise given up, after one attempt, exactly from the turn that finds it passed |
| Application.FirstSync | Temp Monitor/src/Remote.c:118-220 | from the start, through the first connection, to the clock that is set by a packet in time |
| Application.WaitStep | Temp Monitor/src/Remote.c:167-220 | over any turns: a pending wait for the time server ends in the first turn with a packet or a passed deadline, and a packet that ends it sets the clock |
| Application.PostStep | Temp Monitor/src/Remote.c:279-307 | a wait for the back end ends in the first turn that finds its deadline passed or the server closed |
| Application.AttemptStep | Temp Monitor/src/Remote.c:379-392 | after a loss there is a connection from the first turn on in which an attempt meets the network, and the reconnect timer is stopped |
| Application.PacketInTime | Temp Monitor/src/Remote.c:167-220 | as long as the timer for it has not run out, a packet before whose turn none finds the deadline passed answers the wait |
| Application.Reconnects | Temp Monitor/src/Application.c:376-400 | a network that is back is found at the latest when the reconnect timer runs out |

## Left out

- Floating-point rounding: numbers are exact reals; `strtod` and `sscanf` read the decimal value, and the texts of a number that is not an `int` (`%1.15g`, `%1.17g`) are parameters of at most 25 characters.
- JsonRoundTrip.RoundTrip: raw items are not covered, because their text may be anything.
- JsonSyntax.AcceptsExactly: what stands between the quotes of a string is given by the decoder, which takes more than well-formed literals; `JsonLiteral.ParseLiteral` gives the meaning of those.
- CJsonCompare.CompareNodes: nothing is said about trees that share nodes and also repeat a key, where the result depends on which nodes are shared.
- CJsonParser.ParseWithOpts: memory never runs out during a parse; on failure the nodes built so far are not modelled as freed, and the depth counter of a failed parse is unspecified.
- CJsonPrinter.PrintBuffer.Ensure: whether the allocator refuses is left open unless `hasMemory` is set; a buffer that may grow has an initial length of at least 1.
- CJsonCreate.CreateDoubleArray: `cJSON_CreateIntArray` and `cJSON_CreateFloatArray` convert each element to a double and are the same loop.
- Bit operations of the UTF-8 encoder and of the surrogate arithmetic are written as division and remainder.
- Reference items, constant keys, hooks, trees with a string item whose value is null, `cJSON_ParseWithLength` on buffers without a NUL, and `cJSON_Minify`.
- Other public functions of cJSON that only combine those modelled (adding, detaching and replacing by name; type tests; setters).
- GfxLine.WriteLine: the method does not cover a larger major coordinate of 32767, where the loop does not end; `GfxLine.LoopEnds` says so.
- GfxCircle.OutlineFilled: about the circle before its coordinates are stored in 16 bits; `GfxCircle.CircleStored` says where that makes no difference.
- GfxCanvas.GFXcanvas1.constructor: widths and heights above 32767, which become negative `int16_t`s.
- GfxCanvas.GFXcanvas1.DrawFastVLine: a canvas without a buffer, which the source does not check, and one of 65536 bytes or more, whose buffer is too small.
- Custom fonts, shapes made of these, bitmaps, buttons, the 8- and 16-bit canvases.
- MessageQueue.ScreenMessages.NewMessage: `malloc` failures stop the program and are not modelled; assertions are taken as enabled.
- That `msg_count` is the number of queued messages once one is on the screen: `insert_queue_next` does not count then.
- `update_message` and `update_repeat`, scrolling, and what the screen shows.
- Timers.Millis.ElapsedMS: deadlines in `Remote.c` are compared on a clock that does not wrap at 2^32.
- Application.App.Run: the sensors, the screen and the motion detector appear only through their timers; the refresh of the screen inside `updateTimers` is taken to return, although it reads through null (`MessageQueue.Startup`); rebooting the radio and reading its state are answers of the environment.
- Time zones, OTA updates, drivers and the contents of network messages.
