# MicroPython extmod, modelled and proved

The `extmod` directory of MicroPython is mostly bindings, but eleven of its files hold
self-contained algorithms. This project models those algorithms in Dafny in the form the C code
has (objects with fields, buffers changed in place, loops) and proves what each is for.

| file | modules | models |
|---|---|---|
| `modjson.c` | JsonValue, JsonReader, JsonRoundTrip, JsonMalformed, JsonLoader, JsonLoading | the one-pass reader with its stack of open containers |
| `modframebuf.c` | FbLayout, FrameBuffers, FbLine, FbCrossings, FbPoly, FbScroll | seven packed formats, fills, lines, polygons, scrolling |
| `modlwip.c` | LwipAccept, LwipReceive | the queue of a listening socket and the byte stream of a connected one |
| `modwebsocket.c` | WsFrames, WsReading, WebSockets | the resumable frame reader and the writer |
| `machine_i2c.c` | I2cBus, SoftI2c, I2cAdaptor | the bit-banging master and what its two lines say |
| `machine_i2c_target.c` | I2cTargets | memory emulation by a target |
| `moductypes.c` | Uctypes, UctypesPlaces, UctypesWords | sizes of layouts and the addresses reached in them |
| `machine_i2s.c` | I2sRing, I2sInterleaved | the ring buffer, whole and as interleaved loads and stores |
| `modheapq.c` | HeapQ | binary heaps |
| `modcryptolib.c` | AesCtr | counter mode over any block cipher |
| `modbinascii.c` | Base64 | encoder and tolerant decoder |

Arith, Bits, Sequences and Wrappers hold what several of them need. Methods follow the C
functions and are proved against functions and relations; the lemmas are about those. Everything
outside a function that the C code calls is a parameter: the block cipher, the slave on an I2C
bus, the transport under a WebSocket, the order of list items, the float parser of JSON.

## Where the code does less than its comments say, or less than expected

Each of these has a lemma that says, with a condition a caller could check, exactly when the code
does what is expected (for uctypes with the limit named there), and one at a concrete input where it
does not.

- JSON: the comment at modjson.c:116-117 says any valid JSON gives the corresponding object. A
  character outside the basic plane written as two `\u` escapes is read as two three-byte
  sequences instead of one of four bytes (JsonRoundTrip.LoadInvertsPrinting,
  JsonRoundTrip.SurrogatePairMisread).
- Frame buffers: the bits asked of a buffer are counted in a `size_t`. With 32 bits the count wraps
  for big pictures of more than one bit a pixel, and a buffer that is too short passes the check:
  an empty one for 16384 by 16384 pixels of RGB565. The check is sufficient if and only if the bits
  are fewer than 2^32 (FbLayout.CheckSufficientExactly, FbLayout.BitsWrapExample).
- Frame buffers: a stride that rounds up to 65536 is stored as 0, and then all rows share
  the same bytes (FbLayout.StrideWraps, FbLayout.StrideWrapsExample).
- Polygons: the crossing of an edge with a row is rounded to the nearest column, except that more
  than half a column left of the polygon's own origin it comes out a column further right, unless
  it falls on half a column exactly; so a vertical edge at a negative column is off by one, and
  moving the coordinates can change the fill (FbCrossings.NodeRounds, FbCrossings.VerticalEdge,
  FbCrossings.ShiftedNode, FbCrossings.NegativeColumn).
- lwIP: the length of the queue is kept in 8 bits. A backlog above 255 gives a queue of the backlog
  modulo 256. For a multiple of 256 the pointer to the allocated slots is taken for a queued
  connection: until it has been accepted all arrivals are refused, and the first accept hands it
  out (LwipAccept.OnlyArrivalsTaken, LwipAccept.GivenThePointer).
- Software I2C: a read whose last buffer is empty acknowledges its last byte
  (I2cBus.LastByteNacked, I2cBus.EmptyLastBuffer).
- WebSocket: a control frame of which the transport gives some payload but not all is handed out
  as data. Reads return exactly the payloads if and only if that does not happen, and on a
  transport that gives up to m bytes at a time it happens if and only if a control payload is
  longer than m or than the size read with (WsReading.ReadingUndoesFraming,
  WsReading.SteadyReadingUndoesFraming, WsReading.PingInPieces).
- Base64: the output of the decoder is allocated for three times the length of the text, computed in
  a `size_t`; it is big enough for every text of a length if and only if that fits
  (Base64.AllocationExact).
- I2C target: a write that stops inside the memory address leaves an address that is not reduced
  to the memory, and a later read uses it (I2cTargets.ReadAfterWrite, I2cTargets.HalfAnAddress).
- uctypes: the size of a nested structure depends on the biggest field seen before it, while
  indexing sizes it afresh, so elements can be closer together than the space counted for each.
  For a structure whose nested structures agree, the two agree if and only if it has a field as
  big, or its size is a multiple of that field (Uctypes.AgreeExactly, Uctypes.ElementsFillArray,
  Uctypes.SharedAccumulator). When nested structures do not agree themselves nothing is claimed.
  Accesses stay inside in any case (Uctypes.WalkStaysInside).
- uctypes: sizes are machine words. The word computed is the size if and only if the size fits
  (UctypesWords.SizeExact); with 32 bits an array of 2^26 structures of 64 bytes has size 0
  (UctypesWords.SizeWraps).

The JSON reader also accepts texts that are not JSON, as the comment at modjson.c:117-119 says. One of
them shows a key that outlives its dict: in `[{"a"}{1}]` it becomes the key of the second
(JsonMalformed.KeyCarriedOver).

The comment at modwebsocket.c:98-99 says that a control frame leaves `ws_flags` alone; the code
stores the flags of every frame, and the model follows the code.

## Model

| member | source | states |
|---|---|---|
| JsonLoader.JsonStream.Next | micropython/extmod/modjson.c:137-146 | Returns the character under the cursor and moves on; a NUL stands before the first and after the last character. |
| JsonLoader.ReadString | micropython/extmod/modjson.c:202-246 | The string loop returns what the grammar of string bodies gives, escapes included, and stops where it stops. |
| JsonLoader.ScanNumber | micropython/extmod/modjson.c:258-273 | Collects exactly the longest run of number characters, and says whether one of them makes it a float. |
| JsonLoader.ShapeAfterOpen | micropython/extmod/modjson.c:306-338 | Storing a new container in its parent before it is filled keeps the invariant that the stack holds exactly the open enclosing containers, each referring to the next. |
| JsonLoader.ShapeAfterClose | micropython/extmod/modjson.c:288-303 | Closing a container: the parent on the stack already refers to it, and its value is the old value with the finished child put in. |
| JsonLoader.Loader.Enter | micropython/extmod/modjson.c:306-338 | On the heap of containers, an opening bracket pushes the parent with its pending key and makes the empty child the innermost container. |
| JsonLoader.Load | micropython/extmod/modjson.c:148-358 | The loop over stream, stack and heap ends on every input with the outcome of the value-level reader: the same tree or the same error. |
| JsonValue.ParseInvertsPrint | micropython/extmod/modjson.c:274-279 | Reading a printed integer gives it back. |
| JsonValue.FirstDigit | micropython/extmod/modjson.c:274-279 | A digit of an integer counts as a power of ten for each digit behind it. |
| JsonRoundTrip.ReadBytesAreUtf8 | micropython/extmod/modjson.c:224-246 | Whatever escapes a string has, the bytes read pass the check made before a string object is built. |
| JsonRoundTrip.ReadDoc | micropython/extmod/modjson.c:148-338 | Reading the text of any value stores it in the innermost container and leaves the stack of enclosing ones as it was. |
| JsonRoundTrip.LoadReadsText | micropython/extmod/modjson.c:148-358 | Every legal text of RFC 4627, with any whitespace and escapes, loads successfully. |
| JsonRoundTrip.ReadAgrees | micropython/extmod/modjson.c:202-246 | The tree read is the tree the RFC gives the text exactly when no string has a surrogate-pair escape. |
| JsonRoundTrip.LoadInvertsPrinting | micropython/extmod/modjson.c:114-358 | Loading inverts printing: a legal text with distinct names, whatever follows it, loads as the tree it denotes if and only if it has no surrogate-pair escape and only white space follows. |
| JsonLoading.LoadText | micropython/extmod/modjson.c:148-358 | The whole loader on a printed text, whatever follows it: a syntax error unless only white space does; what it leaves on the heap is some tree, and the tree the text denotes if and only if there is no surrogate-pair escape. |
| JsonRoundTrip.SurrogatePairMisread | micropython/extmod/modjson.c:224-240 | U+1F600 as two escapes loads as six bytes where the RFC means four. |
| JsonRoundTrip.NothingAfterValue | micropython/extmod/modjson.c:340-357 | After a legal text there may be white space, tab to carriage return and blank, up to the end or a NUL; with anything else behind it the text is a syntax error. |
| JsonRoundTrip.LastMemberCounts | micropython/extmod/modjson.c:311-326 | Where a name comes more than once in an object, its value is that of its last member, and the key kept is that of its first. |
| JsonValue.StoreThenLookup | micropython/py/objdict.c:659-665 | After a store the key gives the value stored, every key not equal to it gives what it gave before, and no other key is added. |
| JsonValue.KeyEqIsEquivalence | micropython/extmod/modjson.c:324 | Keys are equal as in Python: numbers by value across bool, int and float, and never equal to anything else. |
| JsonValue.Utf8Exactly | micropython/extmod/modjson.c:233 | The bytes stored for an escape are those of RFC 3629: from their bits the character number comes back, and there are as few as that needs. |
| JsonMalformed.ReaderDescends | micropython/extmod/modjson.c:148-358 | For every text, legal or not, the loop with its explicit stack gives the tree or the error that reading by recursion on the nesting gives. |
| JsonMalformed.NoLongerText | micropython/extmod/modjson.c:114-358 | A text that loads as a list or a dict is a syntax error when anything but white space is put behind it. |
| JsonMalformed.CutShort | micropython/extmod/modjson.c:161-165 | No proper front of a legal list or dict loads. |
| JsonMalformed.StartsNothingFails | micropython/extmod/modjson.c:303-304 | In any state the end of the text, or a character that starts no token, is a syntax error. |
| JsonMalformed.NothingOpened | micropython/extmod/modjson.c:161-293 | Separators alone, and a closing bracket before anything was opened, are syntax errors. |
| JsonMalformed.ContainerAsKey | micropython/extmod/modjson.c:318-322 | A list or a dict where a key is wanted is a syntax error. |
| JsonMalformed.ParsesExactly | micropython/extmod/modjson.c:274-279 | The integers accepted are an optional sign and one or more digits. |
| JsonMalformed.RawString | micropython/extmod/modjson.c:202-246 | Any bytes between quotes, without quote, backslash and NUL, are that string if they are whole characters, and otherwise a Unicode error. |
| JsonMalformed.CheckedUtf8 | micropython/py/unicode.c:183-209 | The check passes if and only if the bytes are a row of characters, each a lead byte and as many continuation bytes as it announces. |
| JsonMalformed.AnyEscape | micropython/extmod/modjson.c:206-223 | A backslash before any character but u gives one byte: the control character the letter stands for, or the character itself. |
| JsonMalformed.BitOrBits | micropython/extmod/modjson.c:226-232 | The digits of a \u escape are joined by bitwise or. |
| JsonMalformed.KeyCarriedOver | micropython/extmod/modjson.c:288-326 | A dict that closes with a key pending leaves it to the next dict: [{"a"}{1}] gives that dict the entry a: 1. |
| FbLayout.FieldWritten | micropython/extmod/modframebuf.c:70-224 | Writing one packed field of a byte or word makes it read back, leaves the other fields, and keeps the unit in range, for all seven formats. |
| FbLayout.AddressOfPixel | micropython/extmod/modframebuf.c:70-224 | The address of a pixel determines the pixel, so distinct pixels of a valid buffer are in distinct bits. |
| FbLayout.PixelOfAddress | micropython/extmod/modframebuf.c:70-224 | Every field of a buffer is the place of one cell of the padded picture. |
| FbLayout.SizeCheckExact | micropython/extmod/modframebuf.c:280-334 | The bytes required, before any wrapping, are there if and only if the last pixel lies in the buffer. |
| FbLayout.CheckSufficientExactly | micropython/extmod/modframebuf.c:284-319 | The check with its 32-bit count is sufficient, for every length of the buffer, if and only if the bits required are fewer than 2^32. |
| FbLayout.WhichWrap | micropython/extmod/modframebuf.c:284-319 | The three formats of one bit a pixel never wrap, and with a size_t of 64 bits none does. |
| FbLayout.SizeCheckSuffices | micropython/extmod/modframebuf.c:280-334 | After the check every pixel of the picture is inside the buffer if the bits fit the count. |
| FbLayout.InsideExactly | micropython/extmod/modframebuf.c:280-334 | After the check, with a stride that is not cut, every pixel is inside if and only if the bytes required before wrapping are there. |
| FbLayout.BitsWrapExample | micropython/extmod/modframebuf.c:284-319 | An empty buffer passes the check for 16384 by 16384 pixels of RGB565, and every pixel lies outside. |
| FbLayout.StrideWraps | micropython/extmod/modframebuf.c:280-334 | Distinct pixels are in distinct places if and only if the rounded stride fits 16 bits or there is one row. |
| FbLayout.StrideWrapsExample | micropython/extmod/modframebuf.c:280-334 | An MHLSB buffer with a stride of 65529 passes the check, and its second row starts where the first does. |
| FbLayout.SetThenGet | micropython/extmod/modframebuf.c:70-224 | A pixel set reads back as its truncated colour and every other pixel as before. |
| FbLayout.ByteOfMhlsb | micropython/extmod/modframebuf.c:70-80 | A byte of the buffer is the number its eight pixels of a row make, the leftmost worth 128. |
| FbLayout.ByteOfMhmsb | micropython/extmod/modframebuf.c:70-80 | The same with the leftmost worth 1. |
| FbLayout.ByteOfMvlsb | micropython/extmod/modframebuf.c:98-106 | A byte is the number its eight pixels of a column make, the topmost worth 1. |
| FbLayout.ByteOfGs2 | micropython/extmod/modframebuf.c:142-154 | A byte is its four pixels of a row as digits in base 4, the leftmost the lowest. |
| FbLayout.ByteOfGs4 | micropython/extmod/modframebuf.c:166-182 | A byte is 16 times the pixel at the even column plus the next. |
| FbLayout.UnitOfPixel | micropython/extmod/modframebuf.c:122-128 | A byte of GS8 or a word of RGB565 is the colour of its pixel. |
| FbLayout.TruncExactly | micropython/extmod/modframebuf.c:70-224 | What a format keeps of a colour: whether it is 0, or its low bits. |
| FbLayout.LeftmostPixel | micropython/extmod/modframebuf.c:70-74 | The leftmost of eight pixels alone makes the byte 128 in MHLSB and 1 in MHMSB. |
| FbLayout.FormatCodes | micropython/extmod/modframebuf.c:60-66 | Which number stands for which format, and that no other does. |
| FrameBuffers.FrameBuffer.MakeNew | micropython/extmod/modframebuf.c:273-337 | Accepts exactly the sizes that pass the check with its 32-bit count; unless the stride is cut, the frame buffer is valid if and only if the bytes required before wrapping are there, which they are when the bits fit. |
| FrameBuffers.FrameBuffer.SetPixel | micropython/extmod/modframebuf.c:244-246 | Paints one pixel in its truncated colour and no other cell, in the bits that the lemmas about bytes say. |
| FrameBuffers.FrameBuffer.GetPixel | micropython/extmod/modframebuf.c:254-256 | Reads the colour of a pixel. |
| FrameBuffers.FrameBuffer.MonoHorizFill | micropython/extmod/modframebuf.c:82-94 | Paints exactly the rectangle, padding bits included in what is left alone. |
| FrameBuffers.FrameBuffer.MvlsbFill | micropython/extmod/modframebuf.c:108-118 | Paints exactly the rectangle. |
| FrameBuffers.FrameBuffer.WholeUnitFill | micropython/extmod/modframebuf.c:130-138 | Paints exactly the rectangle with one moving pointer (RGB565 and GS8). |
| FrameBuffers.FrameBuffer.Gs2Fill | micropython/extmod/modframebuf.c:156-162 | Paints exactly the rectangle. |
| FrameBuffers.FrameBuffer.Gs4Row | micropython/extmod/modframebuf.c:184-213 | One row of nibble pairs: an odd nibble, whole bytes, a last nibble, for every parity; the pointer moves by half the width rounded up. |
| FrameBuffers.FrameBuffer.Gs4Fill | micropython/extmod/modframebuf.c:184-213 | The nibble-pair fill paints exactly the rectangle and no nibble outside it. |
| FrameBuffers.FrameBuffer.FillRect | micropython/extmod/modframebuf.c:258-271 | For any rectangle, paints exactly its intersection with the picture. |
| FrameBuffers.FrameBuffer.Fill | micropython/extmod/modframebuf.c:355-361 | Afterwards every pixel has the colour. |
| FbLine.NearLine | micropython/extmod/modframebuf.c:468-485 | The plotted point of every step is within half a pixel of the exact line, and half a pixel off only forward, which determines it. |
| FbLine.OneStep | micropython/extmod/modframebuf.c:480-483 | One step along the long side moves by at most one along the short side. |
| FbLine.EndPoints | micropython/extmod/modframebuf.c:431-487 | In every octant the points begin at the first end and end at the second. |
| FbLine.Connected | micropython/extmod/modframebuf.c:431-487 | Successive points are neighbours and differ. |
| FbLine.MinorSteps | micropython/extmod/modframebuf.c:480-483 | The inner loop runs once or not at all and re-establishes the error term. |
| FbLine.Line | micropython/extmod/modframebuf.c:431-487 | Paints exactly those points of the line that are in the picture. |
| FbCrossings.EvenCrossings | micropython/extmod/modframebuf.c:634-668 | For every closed vertex list and every row the number of crossings is even and at most the number of vertices. |
| FbCrossings.NodeRounds | micropython/extmod/modframebuf.c:645-651 | The stored crossing is the scaled interpolation rounded to the nearest column if and only if that is not negative or whole; else it is one more. |
| FbCrossings.QuotTruncates | micropython/extmod/modframebuf.c:650 | The division is that of C: the remainder is smaller than the divisor and has the sign of the dividend. |
| FbCrossings.NodeDistance | micropython/extmod/modframebuf.c:645-651 | The stored crossing is within 17/32 of a column of where the edge crosses the row, or, where it is not rounded to the nearest, between 1/2 and 3/2 of a column to the right. |
| FbCrossings.VerticalEdge | micropython/extmod/modframebuf.c:645-651 | A vertical edge is met in its own column if and only if that is not negative, and one further right otherwise. |
| FbCrossings.NegativeColumn | micropython/extmod/modframebuf.c:645-651 | A vertical edge at column -5 is met at column -4. |
| FbCrossings.ShiftedNode | micropython/extmod/modframebuf.c:645-651 | Moving an edge sideways moves its crossing along if and only if both are rounded alike. |
| FbCrossings.SwapRemovesInversion | micropython/extmod/modframebuf.c:674-687 | Each exchange removes one inversion, which makes the sorting loop end. |
| FbCrossings.SortNodes | micropython/extmod/modframebuf.c:674-687 | The loop that steps back after an exchange sorts, and permutes. |
| FbCrossings.SpansAreEvenOdd | micropython/extmod/modframebuf.c:689-692 | Filling between pairs of sorted crossings paints what the even-odd rule asks, boundary included. |
| FbCrossings.EvenOddOfPermutation | micropython/extmod/modframebuf.c:674-692 | The rule does not depend on the order in which crossings were found. |
| FbPoly.CollectNodes | micropython/extmod/modframebuf.c:634-668 | The walk around the polygon stores exactly the crossings of the row, within the node array, and paints the missed pixels of its local minima. |
| FbPoly.FillSpans | micropython/extmod/modframebuf.c:689-692 | Every pair read is stored, every width is at least one, and the spans painted are those between the pairs. |
| FbPoly.FillRow | micropython/extmod/modframebuf.c:634-693 | One row paints the even-odd region of its crossings and the pixels of its edges, which RowExactly says in terms of the vertices. |
| FbPoly.FillPoly | micropython/extmod/modframebuf.c:600-693 | Paints exactly, within the picture, the pixels with an odd number of sides met at or left of them in their row, the pixels where sides are met, the lower end of every side and all of every level side; nothing for an empty vertex list. |
| FbPoly.EveryRow | micropython/extmod/modframebuf.c:625-634 | Restricting the rows to the vertical extent leaves nothing out: a pixel is painted if and only if some row at all paints it. |
| FbPoly.RowExactly | micropython/extmod/modframebuf.c:634-693 | A row of the fill paints a pixel if and only if it is inside by the even-odd rule on the sides met, on a crossing, or on an end or a level side, all from the vertices. |
| FbPoly.FillExactly | micropython/extmod/modframebuf.c:625-693 | The same of all rows together. |
| FbPoly.SquareBottom | micropython/extmod/modframebuf.c:652-664 | The bottom row of a square, which no crossing gives, is painted from end to end. |
| FbPoly.OutlineExactly | micropython/extmod/modframebuf.c:694-706 | The outline is exactly the lines along the sides, from each vertex to the next around. |
| FbPoly.OutlinePoly | micropython/extmod/modframebuf.c:694-706 | Paints exactly the lines between successive vertices, the last joined to the first. |
| FbScroll.Scroll | micropython/extmod/modframebuf.c:784-826 | Scrolling in place equals copying from the old picture, for any steps; both wrapping loops end. |
| FbScroll.ScrolledPixel | micropython/extmod/modframebuf.c:784-826 | A pixel whose source is in the picture gets the source's old colour, any other keeps its own. |
| LwipAccept.ListenSocket.Listen | micropython/extmod/modlwip.c:1067-1076 | Sets up a valid queue for every backlog: of the wanted length if and only if that is at most 255, and empty unless the backlog is a multiple of 256, when it holds the pointer to the slots. |
| LwipAccept.ListenSocket.Accept | micropython/extmod/modlwip.c:557-591 | An arrival is appended, or refused when the queue is full; with a memory error nothing changes. |
| LwipAccept.ListenSocket.Take | micropython/extmod/modlwip.c:1114-1142 | The user gets the head of the queue, or nothing while it is empty, after any listen. |
| LwipAccept.ListenSocket.ShiftDown | micropython/extmod/modlwip.c:520-538 | The loop finds the failed connection, wrapped and full cases included, and moves each later one down by a slot. |
| LwipAccept.ListenSocket.ErrUnaccepted | micropython/extmod/modlwip.c:512-545 | Removes exactly the failed connection and keeps the order of the rest. |
| LwipAccept.FifoOverRuns | micropython/extmod/modlwip.c:512-591 | Over every run of arrivals, failures and accepts, what was taken and then what is queued is what was there at first and then let in, in order, without what failed while queued, and nothing twice. |
| LwipAccept.Drive | micropython/extmod/modlwip.c:512-591 | The ring itself, driven through any such run by its callbacks and accept calls, ends with that queue and has handed out those connections. |
| LwipAccept.OnlyArrivalsTaken | micropython/extmod/modlwip.c:1067-1142 | The user is given only connections that arrived if and only if the backlog is at most one or not a multiple of 256, or accept is never called. |
| LwipAccept.GivenThePointer | micropython/extmod/modlwip.c:1067-1142 | With a backlog of 256 an accept before any arrival returns the pointer to the slots as a connection. |
| LwipReceive.FreeTakesHead | micropython/extmod/modlwip.c:885-893 | With the extra reference exactly the head buffer is freed; FreeTakesAll says that without it all would be. |
| LwipReceive.ReadConserves | micropython/extmod/modlwip.c:869-900 | What is handed out followed by what is left is what was pending; a peek leaves all of it. |
| LwipReceive.TcpSocket.OnRecv | micropython/extmod/modlwip.c:594-618 | Appends a segment to the stream, or marks the peer as closed. |
| LwipReceive.TcpSocket.Receive | micropython/extmod/modlwip.c:824-900 | Delivers the front of the stream; a peek or an error changes nothing; the window is opened by the bytes consumed; and each error, with the index of a stack error, is returned if and only if its case holds. |
| LwipReceive.StreamConserved | micropython/extmod/modlwip.c:594-900 | Over every interleaving of arrivals and receives, the bytes delivered followed by those pending are all that arrived. |
| LwipReceive.Drive | micropython/extmod/modlwip.c:594-900 | The socket itself, driven through any such run by its callback and receives, returns those bytes and keeps the rest pending. |
| WsFrames.PartOfHeader | micropython/extmod/modwebsocket.c:81-93 | A header read in pieces loses nothing of what is to be delivered. |
| WsFrames.PartOfPayload | micropython/extmod/modwebsocket.c:165-186 | A data payload read in pieces is unmasked with the key in step. |
| WsFrames.DecodeInvertsFraming | micropython/extmod/modwebsocket.c:77-218 | Framed data, masked or not, with either length form and any control frames among it, decodes to its payloads, its longest control payload, and a whole number of frames. |
| WsFrames.MaskedZeros | micropython/extmod/modwebsocket.c:180-183 | Masking zeros shows the key repeated in the order in which it is sent (section 5.3 of RFC 6455). |
| WsFrames.MaskedByStream | micropython/extmod/modwebsocket.c:180-183 | Masking is exclusive or with that, byte by byte. |
| WsFrames.FrameOnWire | micropython/extmod/modwebsocket.c:96-183 | The bytes of a frame are exactly those that section 5.2 of RFC 6455 draws: mask bit and length, the two-byte length with its high byte first, the key, the payload under the repeated key. |
| WsFrames.DecodeReadsDrawing | micropython/extmod/modwebsocket.c:77-218 | Whatever bytes are so drawn for some frames, the reader has to deliver their payloads. |
| WsFrames.ControlOpcodes | micropython/extmod/modwebsocket.c:135-139 | The opcodes of control frames are those with their highest bit set. |
| WsFrames.HiFromClient | micropython/extmod/modwebsocket.c:77-218 | The masked frame 81 82 01 02 03 04 49 6b is read as 48 69. |
| WsReading.LeakExactly | micropython/extmod/modwebsocket.c:165-211 | Bytes of a control frame are handed out if and only if the next read of the transport, of at most what the caller and the frame have room for, gives some of the payload and not all. |
| WsReading.ReadKeeps | micropython/extmod/modwebsocket.c:77-218 | A whole call, with any segmentation, returns the front of the data to be delivered and keeps the rest; a leak needs a control payload of two bytes or more, and on a transport with a fixed limit one longer than a read can get. |
| WsReading.ReplyExactly | micropython/extmod/modwebsocket.c:79-211 | Which error or end a call returns, if and only if which of its causes holds. |
| WsReading.ClosesAnswered | micropython/extmod/modwebsocket.c:196-207 | Every close frame is answered by one empty close frame when it has been read to its end, whatever interrupts the reading, and nothing else is sent. |
| WsReading.ReadingUndoesFraming | micropython/extmod/modwebsocket.c:77-218 | For any frames, segmentation, interruptions and sizes: without a leak the reads return a prefix of the payloads, and once all frames are read they have returned exactly the payloads if and only if there was no leak. |
| WsReading.SteadyReadingUndoesFraming | micropython/extmod/modwebsocket.c:77-218 | On a transport that gives up to m bytes at a time, all frames read with one size give exactly the payloads if and only if no control payload is longer than m or the size. |
| WsReading.RunFinishes | micropython/extmod/modwebsocket.c:77-218 | Every run finishes in which the transport gives something at least once for each byte, however often it blocks in between, given as many reads as turns of the transport. |
| WsReading.PingInPieces | micropython/extmod/modwebsocket.c:165-211 | A PING with two payload bytes that come one at a time: the first is returned as data. |
| WebSockets.WebSocket.OnHeader | micropython/extmod/modwebsocket.c:96-143 | A complete header leads to the state it announces, except for a length of 127. |
| WebSockets.WebSocket.Unmask | micropython/extmod/modwebsocket.c:180-183 | Unmasks in place from the present position in the key, kept in 8 bits. |
| WebSockets.WebSocket.ReadBody | micropython/extmod/modwebsocket.c:165-214 | Does what one read of a body is specified to do, in place; hands out control bytes if and only if the next read of the transport, known before the call, gives some of the payload and not all. |
| WebSockets.WebSocket.Read | micropython/extmod/modwebsocket.c:77-218 | The loop over fields and buffer gives exactly the state, the bytes, the answer to a close frame and the result that the specified call gives, also when it would block or fails. |
| WebSockets.WebSocket.Write | micropython/extmod/modwebsocket.c:220-268 | Sends one legal unmasked frame with the data, whatever opcode is set, or its front when the transport fails in between; refuses 65536 bytes and more without sending. |
| WebSockets.ReadUndoesWrite | micropython/extmod/modwebsocket.c:77-268 | Of what was written with a data opcode, reads with any sizes over any transport return a prefix, and all of it once it has been read. |
| WebSockets.WriteAll | micropython/extmod/modwebsocket.c:220-268 | Any number of calls of Write send the frames of their data, one after the other. |
| WebSockets.ReadAll | micropython/extmod/modwebsocket.c:77-218 | Any number of calls of Read return what the specified run returns, and send what it sends. |
| WebSockets.Exchange | micropython/extmod/modwebsocket.c:77-268 | One object writes and another reads what was sent: the bytes read are a prefix of the bytes written, and all of them once everything has been read, which happens if the transport gives enough. |
| I2cBus.OneStartOneStop | micropython/extmod/machine_i2c.c:187-243 | What the master says in a transfer begins with the one START and has at most one STOP, at its end; all else is bits (UM10204 section 3.1.4). |
| I2cBus.NineClocksEach | micropython/extmod/machine_i2c.c:115-149 | Each byte written is nine clocks and no condition (UM10204 section 3.1.5). |
| I2cBus.NineClocksRead | micropython/extmod/machine_i2c.c:151-181 | Each byte read is nine clocks, and only the last may be not acknowledged. |
| I2cBus.ByteRoundTrip | micropython/extmod/machine_i2c.c:115-181 | Bits sent most significant first make the byte again. |
| I2cBus.MostSignificantFirst | micropython/extmod/machine_i2c.c:119-132 | A byte goes out from the bit worth 128 to the bit worth 1. |
| I2cBus.ByteDriven | micropython/extmod/machine_i2c.c:156-164 | A byte is read if and only if the slave drives those bits, the one worth 128 first. |
| I2cBus.AddressBits | micropython/extmod/machine_i2c.c:197 | The address byte is the seven bits of the address and then a bit that is high for a read (UM10204 section 3.1.10). |
| I2cBus.WriteBitByBit | micropython/extmod/machine_i2c.c:187-236 | Every symbol of a write by its place: START, the address, each data byte up to the first not acknowledged, SDA let go for each ninth bit. |
| I2cBus.LowNinthBits | micropython/extmod/machine_i2c.c:222-236 | The bytes counted as acknowledged are those whose ninth bit on the wire is low, and the byte sent after them, if any, has a high one. |
| I2cBus.SmallWave | micropython/extmod/machine_i2c.c:79-99 | What an onlooker sees in eight levels: a START, a bit and a STOP. |
| I2cBus.WrittenOnWire | micropython/extmod/machine_i2c.c:115-149 | On the wire, low where either side pulls, a written byte is as it is if and only if the slave leaves its ones alone, and the ninth bit is the slave's. |
| I2cBus.ReadOnWire | micropython/extmod/machine_i2c.c:151-181 | On the wire a byte read is as the slave drives it, and then the master's acknowledge. |
| I2cBus.ReadsWhatIsDriven | micropython/extmod/machine_i2c.c:151-181 | A slave that drives the bits of some bytes is read as those bytes. |
| I2cBus.LastByteNacked | micropython/extmod/machine_i2c.c:213-220 | The master acknowledges every byte read but the last, and the last not if and only if the last buffer is not empty. |
| I2cBus.EmptyLastBuffer | micropython/extmod/machine_i2c.c:213-220 | Reading into buffers of sizes 1 and 0 acknowledges the one byte. |
| I2cBus.AcksUpTo | micropython/extmod/machine_i2c.c:222-236 | The number a write returns is the number of bytes before the first not acknowledged. |
| SoftI2c.SoftI2cMaster.StartCondition | micropython/extmod/machine_i2c.c:79-89 | From an idle bus or between bytes, the master makes one START and nothing else. |
| SoftI2c.SoftI2cMaster.StopCondition | micropython/extmod/machine_i2c.c:91-99 | The master makes one STOP and nothing else. |
| SoftI2c.SoftI2cMaster.WriteByte | micropython/extmod/machine_i2c.c:115-149 | Says the bits of the byte and releases SDA for the ninth clock, whose level it returns. |
| SoftI2c.SoftI2cMaster.ReadByte | micropython/extmod/machine_i2c.c:151-181 | Returns the byte the slave drives and answers with the acknowledge asked for. |
| SoftI2c.SoftI2cMaster.TransferWrite | micropython/extmod/machine_i2c.c:187-243 | The whole trace of the master's lines in a write, up to the first byte not acknowledged, and the number of bytes acknowledged. |
| SoftI2c.SoftI2cMaster.TransferRead | micropython/extmod/machine_i2c.c:187-243 | The whole trace of the master's lines in a read, every acknowledge in it, and buffers filled with what the slave drives. |
| I2cAdaptor.TransferAdaptor | micropython/extmod/machine_i2c.c:253-292 | One transfer of the buffers put together; a read fills them in order with what came back, the last use deciding where one stands twice; a write leaves them alone. |
| I2cTargets.I2cTarget.DataInit | micropython/extmod/machine_i2c_target.c:122-140 | Accepts address sizes of 0, 8, 16, 24 and 32 bits only, and starts idle. |
| I2cTargets.I2cTarget.AddrMatch | micropython/extmod/machine_i2c_target.c:142-160 | Ends what went before and waits for the first byte. |
| I2cTargets.I2cTarget.ReadRequest | micropython/extmod/machine_i2c_target.c:162-188 | Gives the byte at the address and moves on, wrapping; in any state, none where the code would load from outside the memory. |
| I2cTargets.I2cTarget.WriteRequest | micropython/extmod/machine_i2c_target.c:190-229 | Takes up to four bytes, each as address or as data. |
| I2cTargets.ChunkingIsFree | micropython/extmod/machine_i2c_target.c:190-229 | How the bytes are cut into requests makes no difference. |
| I2cTargets.WriteRefines | micropython/extmod/machine_i2c_target.c:190-229 | Any write stays in the memory, and does what a plain memory does if and only if it does not stop within an address that lies outside. |
| I2cTargets.StoreAt | micropython/extmod/machine_i2c_target.c:222-226 | In the plain memory data byte k is at the address plus k, modulo the length, unless a later byte is. |
| I2cTargets.StoreElsewhere | micropython/extmod/machine_i2c_target.c:222-226 | Places past the data keep what they had. |
| I2cTargets.RunRefines | micropython/extmod/machine_i2c_target.c:142-229 | Over every run of such transactions the target reads, ends and stores as the plain memory, and every access is inside. |
| I2cTargets.WrittenIsReadBack | micropython/extmod/machine_i2c_target.c:142-229 | Data written to an address is read back after the address has been written again, however the transactions are ended. |
| I2cTargets.LastSelected | micropython/extmod/machine_i2c_target.c:104-113 | The address kept as the last selected is that of the last write with a complete address. |
| I2cTargets.AddressDigits | micropython/extmod/machine_i2c_target.c:208-213 | The bytes of an address count from the first, as digits in base 256. |
| I2cTargets.ReadAfterWrite | micropython/extmod/machine_i2c_target.c:142-229 | A read after a write stays in the memory if and only if the write is handled. |
| I2cTargets.HalfAnAddress | micropython/extmod/machine_i2c_target.c:142-188 | One byte of a two-byte address, then a read of a memory of sixteen bytes, leaves the memory. |
| Uctypes.StructSize | micropython/extmod/moductypes.c:209-263 | The loop over fields computes the recursive size with its shared accumulator, or fails where it does. |
| Uctypes.TupleSize | micropython/extmod/moductypes.c:157-207 | The size of an aggregate, or failure. |
| Uctypes.RoundUpGrows | micropython/extmod/moductypes.c:255-262 | Rounding grows with the size and with the alignment. |
| Uctypes.SizeGrows | micropython/extmod/moductypes.c:157-263 | A size computed after more has been seen is no smaller, and fails no more often. |
| Uctypes.AttrInside | micropython/extmod/moductypes.c:410-517 | A field reached is inside its structure, whatever fields precede it. |
| Uctypes.ItemInside | micropython/extmod/moductypes.c:551-584 | An element reached is inside its array although its size is computed afresh. |
| Uctypes.WalkStaysInside | micropython/extmod/moductypes.c:148-584 | Whatever any chain of field and index accesses touches lies in the size computed for the root. |
| UctypesPlaces.ScalarReached | micropython/extmod/moductypes.c:417-436 | A scalar whose word is a type above an offset is reached at the address of the structure plus that offset, with the bytes of its type. |
| UctypesPlaces.BitFieldReached | micropython/extmod/moductypes.c:437-448 | A bit field is reached at the low 17 bits of what its word holds. |
| UctypesPlaces.AggregateReached | micropython/extmod/moductypes.c:478-513 | A nested structure, an array or a pointer is reached at the address plus the offset in its head, and an array of bytes is touched as a whole. |
| UctypesPlaces.ScalarElements | micropython/extmod/moductypes.c:551-571 | Element i of an array of n scalars is i widths from its start, and there is none from n on. |
| UctypesPlaces.StructElements | micropython/extmod/moductypes.c:573-580 | Element i of an array of structures is i sizes of one structure from its start. |
| UctypesPlaces.ElementsApart | micropython/extmod/moductypes.c:551-580 | Elements i and j of any array are i - j element sizes apart. |
| UctypesPlaces.ReachedInField | micropython/extmod/moductypes.c:410-584 | Whatever a chain of accesses through a field touches lies between the field's offset and the end of what it takes. |
| UctypesPlaces.DisjointFields | micropython/extmod/moductypes.c:410-584 | Through fields described at disjoint places only disjoint memory is touched, at any depth. |
| UctypesPlaces.SecondWord | micropython/extmod/moductypes.c:417-436 | Of two 32-bit fields at 0 and 4 the second is reached four bytes on. |
| UctypesPlaces.AccumulatesBiggest | micropython/extmod/moductypes.c:157-263 | The accumulator shared by everything nested ends as the biggest of what it was and of every scalar and pointer in the descriptor. |
| UctypesPlaces.SizeIsLeast | micropython/extmod/moductypes.c:209-263 | The size of a structure is the end of its last field, or with the byte order of the machine the least multiple of its biggest field from there on. |
| UctypesPlaces.LastFieldEnds | micropython/extmod/moductypes.c:220-253 | Some field ends where the structure does. |
| UctypesPlaces.FiveOrEight | micropython/extmod/moductypes.c:209-263 | A 32-bit field and a byte behind it take five bytes, or eight. |
| UctypesWords.SizeExact | micropython/extmod/moductypes.c:148-263 | The size computed in machine words is the size if and only if the size fits a word. |
| UctypesWords.WalkStaysInsideWord | micropython/extmod/moductypes.c:148-584 | If it fits, whatever any chain of accesses touches lies in the word computed for the root. |
| UctypesWords.SizeWraps | micropython/extmod/moductypes.c:157-263 | With words of 32 bits an array of 2^26 structures of 64 bytes has size 0. |
| Uctypes.AgreeExactly | micropython/extmod/moductypes.c:157-263 | A structure whose nested structures agree takes the same space after a field of m bytes as alone if and only if it has a field as big, its size is a multiple of m, or it has no bytes. |
| Uctypes.EvenAgrees | micropython/extmod/moductypes.c:157-263 | A descriptor of any depth all of whose structures are so takes the same space after whatever comes before it. |
| Uctypes.ElementsFillArray | micropython/extmod/moductypes.c:157-584 | The elements of an array of such structures are as far apart under indexing as they were counted if and only if the structure agrees. |
| Uctypes.ScalarsAgree | micropython/extmod/moductypes.c:209-263 | The same condition for scalar fields only, in terms of the size alone. |
| Uctypes.UnroundedAgrees | micropython/extmod/moductypes.c:157-263 | Layouts with a given byte order take the same space anywhere. |
| Uctypes.SharedAccumulator | micropython/extmod/moductypes.c:157-263 | A structure of three bytes counts as four after a four-byte field, but is indexed three bytes apart. |
| I2sRing.CountIsModulo | micropython/extmod/machine_i2s.c:177-179 | The unsigned expression with its wrap below zero is the number of bytes held. |
| I2sRing.RingBuffer.Push | micropython/extmod/machine_i2s.c:145-156 | Appends a byte, and refuses if and only if size - 1 are held. |
| I2sRing.RingBuffer.Pop | micropython/extmod/machine_i2s.c:158-167 | Takes the oldest byte, and refuses if and only if none is held. |
| I2sRing.RingBuffer.IsEmpty | micropython/extmod/machine_i2s.c:169-171 | Says whether nothing is held. |
| I2sRing.RingBuffer.IsFull | micropython/extmod/machine_i2s.c:173-175 | Says whether size - 1 are held. |
| I2sRing.RingBuffer.AvailableSpace | micropython/extmod/machine_i2s.c:177-183 | The number of bytes that still fit. |
| I2sRing.RingBuffer.CopyIn | micropython/extmod/machine_i2s.c:291-319 | What was drained and what is held is what was held and the part copied, in order; asyncio stops only when full, blocking completes while the interrupt drains. |
| I2sRing.BackgroundCopy.Continue | micropython/extmod/machine_i2s.c:322-340 | A whole block is copied or nothing, and the callback is due exactly when all has been copied. |
| I2sInterleaved.StepKeeps | micropython/extmod/machine_i2s.c:145-167 | Every single load or store of either side keeps the invariant: the slots from head to tail are the bytes pushed and not popped. |
| I2sInterleaved.RunKeeps | micropython/extmod/machine_i2s.c:132-167 | Every run, of any interleaving, keeps that invariant. |
| I2sInterleaved.RoomLasts | micropython/extmod/machine_i2s.c:145-156 | What the consumer does between two steps of a push takes nothing back that the push relies on. |
| I2sInterleaved.ByteLasts | micropython/extmod/machine_i2s.c:158-167 | The same of the producer between two steps of a pop. |
| I2sInterleaved.FirstInFirstOut | micropython/extmod/machine_i2s.c:132-167 | For every interleaving the bytes popped are a prefix of those pushed, and at most size - 1 are held. |
| I2sInterleaved.NeverOverwrites | micropython/extmod/machine_i2s.c:132-167 | The slot about to be written holds no unread byte and is not the one about to be read. |
| I2sInterleaved.RefusedOnlyWhenSo | micropython/extmod/machine_i2s.c:145-167 | A push is refused if and only if the buffer is full when it loads the head, a pop if and only if it is empty when it loads the tail. |
| I2sInterleaved.PushAlone | micropython/extmod/machine_i2s.c:145-156 | Run without interruption, the steps of a push append or refuse as the method does. |
| I2sInterleaved.PopAlone | micropython/extmod/machine_i2s.c:158-167 | The same of a pop. |
| HeapQ.StepUp | micropython/extmod/modheapq.c:41-54 | Exchanging an item with a greater parent moves the one disorder of a heap to the parent. |
| HeapQ.StepDown | micropython/extmod/modheapq.c:56-71 | Exchanging the hole with its smaller child moves it down and disturbs nothing else. |
| HeapQ.Heap.SiftDown | micropython/extmod/modheapq.c:41-54 | Repairs a heap with one item out of place, and permutes. |
| HeapQ.Heap.SiftUp | micropython/extmod/modheapq.c:56-71 | Sinking to a leaf and sifting back makes a heap from one more root on, and permutes. |
| HeapQ.Heap.HeapPush | micropython/extmod/modheapq.c:73-79 | Adds the item and keeps a heap. |
| HeapQ.Heap.HeapPop | micropython/extmod/modheapq.c:81-95 | Takes a least item and keeps a heap, or fails if and only if the list is empty. |
| HeapQ.Heap.Heapify | micropython/extmod/modheapq.c:97-103 | Makes any list a heap with the same items. |
| HeapQ.NoneIsLess | micropython/extmod/modheapq.c:81-95 | No item of a heap is less than its first. |
| HeapQ.HeapShape | micropython/extmod/modheapq.c:41-71 | A heap is a list in which no item is greater than those at twice its index plus one and plus two. |
| HeapQ.PopsInOrder | micropython/extmod/modheapq.c:81-95 | Over any run of pops the items come out in order and none is lost. |
| HeapQ.HeapSort | micropython/extmod/modheapq.c:81-103 | Popping until nothing is left gives a sorted permutation. |
| HeapQ.PopAll | micropython/extmod/modheapq.c:81-95 | Calls of HeapPop on a heap until it is empty return a sorted permutation of it. |
| HeapQ.SortList | micropython/extmod/modheapq.c:81-103 | Heapify and then such calls sort any list. |
| AesCtr.IncrementAddsOne | micropython/extmod/modcryptolib.c:153-158 | The carry over bytes is addition of one modulo 2^128 on the big-endian number. |
| AesCtr.CounterBlockValue | micropython/extmod/modcryptolib.c:153-158 | Counter block k is the number IV + k modulo 2^128, its most significant byte first. |
| AesCtr.CarryExample | micropython/extmod/modcryptolib.c:153-158 | The carry goes from the last byte toward the first. |
| AesCtr.StreamIsXor | micropython/extmod/modcryptolib.c:145-166 | The stream is the data exclusive-ored with the enciphered counter blocks, one behind the other. |
| AesCtr.Ctr.IncrementCounter | micropython/extmod/modcryptolib.c:153-158 | The loop that stops at the first byte that does not wrap computes that increment. |
| AesCtr.Ctr.Process | micropython/extmod/modcryptolib.c:145-166 | Byte i of the stream is exclusive-ored with byte i mod 16 of the cipher of IV + i / 16, also in place; counter and offset afterwards depend on the total length only (SP 800-38A section 6.5). |
| AesCtr.StreamTwice | micropython/extmod/modcryptolib.c:145-166 | A second run over the same stretch restores the data. |
| AesCtr.ChunkingIsFree | micropython/extmod/modcryptolib.c:145-166 | Calls on the pieces write what one call on the whole writes. |
| AesCtr.BlocksDiffer | micropython/extmod/modcryptolib.c:145-166 | No counter block comes twice among 2^128 successive ones. |
| Base64.LettersRoundTrip | micropython/extmod/modbinascii.c:52-66 | The table of the decoder inverts that of the encoder, both ways. |
| Base64.AlphabetOrder | micropython/extmod/modbinascii.c:52-66 | Both are the alphabet of table 1 of RFC 4648, in its order. |
| Base64.DigitsByShifts | micropython/extmod/modbinascii.c:132-150 | The shifts and masks are the base-64 digits of the 24-bit group (RFC 4648 section 4). |
| Base64.B2a | micropython/extmod/modbinascii.c:111-170 | Two passes fill a buffer of the computed length exactly with the encoding. |
| Base64.A2b | micropython/extmod/modbinascii.c:68-107 | The shift register decodes as the grammar of sextets and padding says, failing exactly where it does; it writes past its allocation only where three times the length does not fit a size_t. |
| Base64.AllocationExact | micropython/extmod/modbinascii.c:73-74 | The allocation is big enough for every text of a length if and only if three times the length fits a size_t of 32 bits. |
| Base64.BytesSnoc | micropython/extmod/modbinascii.c:91-99 | Each further sextet completes one byte except the first of a group of four. |
| Base64.NoiseIsSkipped | micropython/extmod/modbinascii.c:86-90 | Bytes outside the alphabet that are not padding change nothing, wherever they are. |
| Base64.DecodeUndoesEncode | micropython/extmod/modbinascii.c:68-170 | An encoding with any such bytes put in decodes to what was encoded. |
| Base64.RoundTrip | micropython/extmod/modbinascii.c:68-170 | An encoding with or without its newline decodes to what was encoded. |
| Base64.DecodeExactly | micropython/extmod/modbinascii.c:77-107 | Every text: the bytes of its letters up to the first pad character that completes a group of four, or of all its letters if none does and they are whole groups; otherwise it is refused. |
| Base64.Refused | micropython/extmod/modbinascii.c:103-105 | One to three letters that no pad character completes are refused. |
| Base64.FooExamples | micropython/extmod/modbinascii.c:111-170 | The encodings of one, two and three bytes of section 10 of RFC 4648. |

## Left out

General:

- Argument parsing, type objects, garbage collection, allocation failure and exceptions; an error
  is a value in the result.
- Widths of C integers for drawing coordinates, which a caller's numbers would have to overflow.
  `size_t` is taken to have 32 bits where a product in it can wrap. The widths modelled are that
  count of bits, the 16-bit stride, the 32-bit scroll loops, the 8-bit queue length and key
  position, the decoder's allocation and 32-bit shift register, the 32-bit address of an I2C target,
  the words of uctypes sizes and the unsigned subtraction of the ring buffer.

By file:

- modjson.c: printing objects (the lemmas quantify over every legal text instead); floats are
  whatever the number parser gives; containers are cells of one heap, known by position; the order
  in which a dict lists its entries, which a hash table decides (the model's is that of first stores).
- modframebuf.c: ellipse, text, blit and the legacy constructor; hline, vline and rect, which
  only call fill_rect.
- modlwip.c: UDP and raw sockets, sending, connecting and closing; the waiting loop of a blocking
  receive is modelled one turn at a time, without SOCKET_SINGLE_PBUF.
- LwipAccept.ListenSocket.Accept: the callbacks it registers with the stack are not modelled.
- machine_i2c.c: clock-stretch timeouts and delays; a slave that moves SDA while SCL is high; the
  buffers of the software master are sequences given and returned, not memory filled in place, so
  overlap is not captured.
- modwebsocket.c: ioctl and switching the transport between blocking and non-blocking; a transport
  that fails while the answer to a close frame is sent, which the code ignores.
- Uctypes.AgreeExactly: says nothing of a structure whose nested structures do not agree, since a
  later field or the rounding may or may not hide the difference.
- moductypes.c: loading and storing values at the addresses; negative indices.
- machine_i2s.c: filling a program's buffer through the frame map, which is not in this file; a
  memory model weaker than loads and stores in program order.
- I2sRing.RingBuffer.Push: a buffer of size 0, for which the C code divides by zero.
- machine_i2c_target.c: targets without a memory, and calls of the program's interrupt handler.
- I2cTargets.I2cTarget.ReadRequest: an empty memory, for which the C code divides by zero.
- modheapq.c: a less-than operator that raises or changes the list while it is sifted.
- modcryptolib.c: ECB, CBC and the mbedTLS variants; input and output that overlap without being
  the same buffer.
- modbinascii.c: hexlify, unhexlify and crc32.
- Base64.B2a: encodings of more than 3221225469 bytes, whose length does not fit a 32-bit `size_t`.
