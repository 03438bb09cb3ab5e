# Verified models of the C and C++ engines of the Android build

This Dafny project models three parts of the repository and proves what they are for.

* **The progressive PNG reader** (`android/jni/libpng/pngpread.c`). `PushSpec` is the reader as a machine on the
  bytes that have been fed and not yet used; inflate, the chunk handlers and the CRC verdict are arbitrary
  functions in an environment. `PushReader.PngStruct` is the reader with its fields, its save buffer and its
  current buffer, updated in place, and is proved equal to the machine. `PushSplit` is about cutting the input.
  `PushStream` has the chunks and files, `PushChunks` what the reader makes of every list of chunks, `PushVerdict`
  what that means for regular files; `PushInfo` is about the info callback, `PushSignature` about the texts of the
  signature error. `PushInflate.ImageReader` is what the machine calls inflate: the loop around the zlib calls with
  its row buffer, for a library that may read ahead; `PushRows` says which rows come out, `PushAhead` what reading
  ahead can change, and `PushWarnings` which warnings are given. `RowMachine` is the Adam7 row machine behind it,
  `Adam7` the macros of `png.h` that it relies on, and `RowSchedule` counts it in data rows. `PushImage` puts all
  of them together: from the pieces of a file to the row callbacks.
* **jsoncpp** (`android/jni/jsoncpp`). `JsonValue` has the values and the functions that compare them, `JsonOrder`
  says what order that is and what a map holds; `JsonLexer` and `JsonGrammar` are the reader as functions of the
  text that is left; `JsonReader.Reader` is the reader with its position, error list, node stack and root
  (`JsonTree`), proved equal to those functions. `JsonLanguage` is the language that it accepts, `JsonErrors` what
  it notes for all other texts, and `JsonEscapes` for strings. `JsonCharacters` says what the lexer makes of every
  character, `JsonComments` where comments end and where they may stand. `JsonTokens`, `JsonNumbers` and
  `JsonSyntax` say what it makes of every text of RFC 4627, `JsonSeparators` what it takes for a comma, `JsonSound`
  what it never builds. `JsonText` says what a written value is (its tokens, with white space between them),
  `JsonWriter` and `JsonStyledWriter` are the two writers with their state, `JsonLayout` is the layout pass without
  its state, `JsonLines` says what lines that makes, and `JsonSpelling` how strings and numbers are spelled.
  `JsonRoundTrip`, `JsonTheorems` and `JsonUnicode` prove the laws. `BatchAllocator` is the page and free-list
  allocator.
* **Fixed-point arithmetic and text** (`android/jni/libpng/png.c`): `MulDiv`, `Chromaticity`, `WhitePoint`,
  `GrayCoefficients`, `GammaTable`, `FpText` and `FixedText`; `Words` has the machine words, `Basics` what all
  parts share. `png_muldiv` is its integer branch (`png.c:3192-3273`), and so is everything built on it: `MulDiv`,
  `Chromaticity`, `WhitePoint` and `GrayCoefficients`. `pnglibconf.h:35` selects the double branch for the build in
  the repository, so what is said there holds for a build without PNG_FLOATING_ARITHMETIC_SUPPORTED.

`dafny verify dfyconfig.toml` checks everything.

## Where the code does not do what its comments or its users expect

Each of these is a theorem below, with the exact condition.

* The integer branch of `png_muldiv` does not always round to the nearest: for an odd divisor the remainder
  `(D - 1) / 2` is rounded up (`MulDiv.NearestIff`), a division by one returns the product plus one
  (`MulDiv.DivideByOneIsOffByOne`), and a rounded magnitude of 2^32 is reported as success with the value 0
  (`MulDiv.SilentWrap`). For the same reason a total of one gives a gray coefficient of 32769
  (`GrayCoefficients.TotalOfOne`), and `Balance` needs a total of at least two. The double branch, which the
  configuration in the repository selects, is not modelled.
* The comment at the blue scale of `png_XYZ_from_xy` calls overflow impossible; it happens exactly for a white y
  below 0.00005 together with one of the pairs of small inverse scales that `Chromaticity.TooSmall` lists
  (`Chromaticity.StoredBlueScaleIff`, `Chromaticity.BlueScaleWraps`).
* The comment at `png_build_16to8_table` says that the closest output is selected for every input. Without any gamma
  correction that is so if and only if no bits of the sample are dropped, or eight (`GammaTable.ClosestIff`).
* When the first IDAT chunk of a PNG is empty, the progressive reader never makes the info callback
  (`PushInfo.InfoShownIff`, `PushInfo.EmptyFirstImage`).
* The comment at `png_process_IDAT_data` says that it processes all the data it has been given. After any data it
  has not exactly when the output of the last byte is more than fits into the row buffer, with the row that it fills
  accepted and not behind the last one; what does not fit waits for the next byte (`PushRows.AllProcessedIff`,
  `PushRows.RowLeftBehind`).
* With a library that reads on when the row buffer is full, whether the row in front of damaged compressed data is
  shown can depend on how the file is cut; for the last row that decides between an error and a warning. Rows, end
  and errors depend on the cut in no other way (`PushAhead.ReadingAhead`, `PushAhead.CutDecides`).
* The name of a chunk is checked everywhere but right behind the image data; there any four bytes go to the chunk
  handlers (`PushChunks.BadNameIff`, `PushChunks.OddNameIsHandled`).
* Which error text a wrong PNG signature gets depends on how it was cut (`PushSignature.ErrorTextIff`,
  `PushSignature.ErrorTextDependsOnCut`).
* jsoncpp reads an integer as an integer only between -2147483639 and 4294967289
  (`JsonRoundTrip.IntIsDecoded`).
* `decodeDouble` stores the NUL behind its copy one place beyond its array exactly when its token has 32 characters
  (`JsonNumbers.StoreInsideIff`, `JsonNumbers.StoreOutside`).
* jsoncpp accepts more than JSON (`JsonLanguage.AcceptedIff` has the language): anything behind the root
  (`JsonSyntax.BracketBehindRoot`), numbers with leading zeros (`JsonNumbers.LeadingZero`), a comma in front of `}`
  when the name in front of it is empty (`JsonLanguage.TrailingCommaIff`).
* jsoncpp refuses a comment between a name and its colon and one inside `[]` (`JsonComments.CommentBeforeColon`,
  `JsonComments.CommentInBrackets`); behind a member a comment lets any token stand for the comma
  (`JsonComments.CommentHidesComma`); and comments that are switched off are still passed inside objects
  (`JsonComments.UnwantedComment`).
* The message "Missing ',' or ']' in array declaration" is never given (`JsonErrors.NoMissingArrayEnd`).
* jsoncpp takes every token but `]` for the comma between two items of an array, also one that is an error, a
  number or the NUL byte (`JsonSeparators.SeparatorIff`, with `JsonSeparators.ErrorTokenSeparates` and
  `JsonSeparators.NumberIsLost`).
* jsoncpp does not check that the second half of a surrogate pair is one (`JsonUnicode.SurrogatesJoin`), writes a
  second half that stands alone as bytes that RFC 3629 forbids (`JsonUnicode.EscapeIsEncodedIff`,
  `JsonUnicode.LoneLowSurrogate`), and refuses texts of the grammar in which a first half stands alone
  (`JsonSyntax.RfcTextIff`, `JsonUnicode.LoneHighSurrogate`). Its strict mode lets a bare `null` pass
  (`JsonTheorems.SpacedIsRead`).
* `BatchAllocator` hands out memory beyond its pages on some run exactly when a page does not hold a whole
  number of blocks (`BatchAllocator.SafeIff`).

## Model

| member | source | states |
|---|---|---|
| PushSpec.StepInv | android/jni/libpng/pngpread.c:106-142 | Every pass through the loop keeps the field invariant, loses and invents no byte, and either uses at least one byte, stops to wait, or is the last; so the loop of `png_process_data` ends. |
| PushSplit.StepExtends | android/jni/libpng/pngpread.c:145-311 | A step with more input behind it does the same and leaves that input, or is what the state left by the shorter step does next; a failing step fails in the same way. |
| PushSplit.SplitIndependence | android/jni/libpng/pngpread.c:30-42 | From every sound reader and for every environment, with inflate as a machine that takes one byte after the other, feeding `a` and then `b` leaves the same state, events, inflate state and fact of having failed as feeding `a + b`; an error is final. |
| PushSplit.AnyCutting | android/jni/libpng/pngpread.c:30-42 | However the input is cut into pieces, what is decoded is what one piece gives. |
| PushSplit.StallStays | android/jni/libpng/pngpread.c:203-207 | A reader that has saved its input to wait does nothing until more input comes. |
| PushSplit.Conservation | android/jni/libpng/pngpread.c:613-724 | Consumed, dropped and pending bytes are in order all bytes fed; before the end nothing is dropped. |
| PushSignature.ErrorTextIff | android/jni/libpng/pngpread.c:166-173 | For a wrong piece that begins in the first half of the signature the text is "Not a PNG file" if and only if the piece is at most four bytes long or wrong before its last four bytes. |
| PushSignature.ErrorTextDependsOnCut | android/jni/libpng/pngpread.c:151-182 | The same wrong bytes get one text in one piece and the other text in two pieces. |
| PushReader.PngStruct.FillBuffer | android/jni/libpng/pngpread.c:616-657 | The bytes handed out are the first ones waiting, the saved ones before the current ones, and all counters agree with what is left. |
| PushReader.PngStruct.SaveBuffer | android/jni/libpng/pngpread.c:659-714 | After the overlapping move and a possible reallocation the save buffer holds the saved bytes followed by the current ones. |
| PushReader.PngStruct.MoveDown | android/jni/libpng/pngpread.c:662-677 | The forward byte copy onto an overlapping range keeps the saved bytes. |
| PushReader.PngStruct.RestoreBuffer | android/jni/libpng/pngpread.c:716-724 | The new buffer becomes the current one, what was saved stays, and the counter covers both. |
| PushReader.PngStruct.PullHeader | android/jni/libpng/pngpread.c:198-216 | The header is the first eight pending bytes wherever the two buffers meet, and a length of 2^31 or more is an error. |
| PushReader.PngStruct.StartImageData | android/jni/libpng/pngpread.c:220-245 | The flags, tests and early return of the IDAT branch give the abstract start of the image, with the events unchanged on an error. |
| PushReader.PngStruct.HandleChunk | android/jni/libpng/pngpread.c:258-273 | One handler call; behind IEND the end callback and the final mode, and the header flag is taken back. |
| PushInflate.ImageReader.ProcessIdatData | android/jni/libpng/pngpread.c:829-931 | For a library that in each call reads ahead as far as it likes, the call leaves the rows, the end or the error of the loop of calls and tests written as a function, and adds its warnings; an empty call is an error. |
| PushInflate.ImageReader.TakeOutput | android/jni/libpng/pngpread.c:870-924 | The tests behind one inflate call in their order, whatever the call returned: an error counts only before the last row, output behind the last row ends the stream, a full buffer is one row, and then the end of the stream counts; each warning in its place. |
| PushInflate.ImageReader.Round | android/jni/libpng/pngpread.c:847-925 | One round of the loop, with the row buffer provided if it was used up, keeps what is still to come of data and warnings, and moves on in the input or in the waiting output. |
| PushInflate.CallIsEaten | android/jni/libpng/pngpread.c:867-925 | One inflate call with the tests behind it is the byte machine run on the bytes that the call has used. |
| PushInflate.ProcessIsEaten | android/jni/libpng/pngpread.c:845-925 | With a library that stops when the row buffer is full, a call does with any data what a machine does that takes one byte after the other. |
| PushInflate.ProcessEnds | android/jni/libpng/pngpread.c:847-931 | A call behind the end of the stream changes nothing and gives one warning, so the number of warnings depends on the cut. |
| PushAhead.ReadingAhead | android/jni/libpng/pngpread.c:845-925 | However the image data is cut and however far the library reads ahead in each call, rows, end and error are those of the byte machine on the joined data once all output is handed out; except that in a damaged stream the row in front of the damage may be lost, and then there is an error even if it is the last row. |
| PushAhead.UndamagedAgree | android/jni/libpng/pngpread.c:845-925 | For a stream that is not damaged any two cuts and any two ways of reading ahead agree. |
| PushAhead.CutDecides | android/jni/libpng/pngpread.c:867-892 | Two bytes, a last row and a wrong check sum: an error in one piece, the whole image without error in two. |
| PushWarnings.BehindTheLastRow | android/jni/libpng/pngpread.c:867-931 | Behind the last row, the warning of a call is decided by the stream: "Truncated" for damage before more than a row of output, "Extra compressed data" for any other output, and "Extra compression data" for input behind an end without output. |
| PushWarnings.WhatWarningsMean | android/jni/libpng/pngpread.c:867-931 | With any library, a call gives at most one warning; none with an error or while the stream goes on; the first two only when the last row is complete. |
| PushRows.RowsAreShown | android/jni/libpng/pngpread.c:845-925 | After any data, once waiting output is handed out: the rows shown are exactly the slices of the decompressed data, in order, and the verdict is that of the rows before that of the stream. |
| PushRows.AllProcessedIff | android/jni/libpng/pngpread.c:836-843 | After any data, output waits if and only if that of the last byte is more than fits into the row buffer, and the row that it fills is neither refused nor behind the last one. |
| PushRows.RowLeftBehind | android/jni/libpng/pngpread.c:836-843 | Rows of one byte, and a stream whose one byte gives two of them: only the first is shown. |
| PushRows.ImageIsShown | android/jni/libpng/pngpread.c:761-931 | For every accepted datastream, cut in any way, the whole reader shows the rows of the decompressed IDAT data, up to the last row or the end of the stream. |
| PushImage.InterlacedImage | android/jni/libpng/pngpread.c:726-1228 | For every accepted file with an interlaced image, cut in any way: the data rows handed out are the slices of the decompressed data at their offsets, as many as there is data for; the image is complete if and only if the data reaches to the last offset, and then the callbacks are those of all rows of all passes. |
| PushImage.LinesGrow | android/jni/libpng/pngpread.c:983-1155 | One more data row leaves the callbacks made before as they were, and each new one hands out that row or nothing. |
| PushImage.CutSlices | android/jni/libpng/pngpread.c:847-925 | Cutting the decompressed data stops behind the last row, at the end of the data, or at a filter type beyond 4, with the slices up to there. |
| PushImage.DataLength | android/jni/libpng/pngpriv.h:656-659 | With whole bytes in a pixel, the data of a complete image has the bytes of width times height pixels and one for each data row. |
| PushImage.RowBytesHold | android/jni/libpng/pngpriv.h:656-659 | A row has the least number of bytes that hold its bits, for every pixel depth of a PNG. |
| PushReader.PngStruct.ReadSignature | android/jni/libpng/pngpread.c:151-182 | The signature step on the buffers is the abstract step on the pending bytes. |
| PushReader.PngStruct.ReadChunkStep | android/jni/libpng/pngpread.c:184-485 | So is the chunk step: it waits with everything saved, fails, starts the image, or hands exactly one chunk with its CRC to its handler. |
| PushReader.PngStruct.TakeImageData | android/jni/libpng/pngpread.c:761-810 | The two copies of the data loop together give inflate and the CRC the first pending bytes up to the chunk length, once and in order. |
| PushReader.PngStruct.ReadIdatStep | android/jni/libpng/pngpread.c:726-826 | The IDAT step on the buffers is the abstract step on the pending bytes. |
| PushReader.PngStruct.FinishCrc | android/jni/libpng/pngpread.c:555-613 | So is the step that skips a chunk and checks its CRC. |
| PushReader.PngStruct.ProcessSomeData | android/jni/libpng/pngpread.c:105-142 | In every mode one call is one abstract step, and saved bytes never cover a whole operation that is due. |
| PushReader.PngStruct.ProcessData | android/jni/libpng/pngpread.c:30-42 | The reader after the call is the abstract reader fed with the buffer; the call ends, and afterwards nothing refers to the caller's buffer for undecoded data. |
| PushReader.ReadPieces | android/jni/libpng/pngpread.c:30-42 | A new reader that is given the pieces of a datastream one call after the other ends up as if their concatenation had been given to it at once. |
| PushChunks.EveryDatastream | android/jni/libpng/pngpread.c:145-311 | For every list of chunks, with any names, CRCs and order: the reader ends up failed, with the events up to the failing chunk, or between two chunks or at the end, exactly as a function from chunk to chunk says; behind an error or the end what follows does not matter, and all bytes up to there are used up. |
| PushChunks.ChunkGoes | android/jni/libpng/pngpread.c:184-826 | From any state between two chunks, one chunk leads through header, data and CRC to the next such state or to the failure that the function gives. |
| PushChunks.UpTo | android/jni/libpng/pngpread.c:184-311 | The verdict on a datastream is the verdict on its first failing chunk, after what the chunks before it have done. |
| PushChunks.PassesIff | android/jni/libpng/pngpread.c:218-311 | A chunk is passed if and only if all conditions on its name, length, place, data, CRC and handler hold, and what the application then sees; image data behind other chunks makes the info callback again. |
| PushChunks.LetterIff | android/jni/libpng/pngrutil.c:2975-2990 | The bytes that a chunk name may have are the ASCII letters. |
| PushChunks.LongChunkFails | android/jni/libpng/pngpread.c:198-216 | Behind any chunks that pass, a chunk length of 2^31 or more fails whatever the name, with the events up to there. |
| PushChunks.SkipGoes | android/jni/libpng/pngpread.c:555-613 | What is left of a skipped chunk is used up with its CRC, which is checked over all of it, and the next chunk is read behind it. |
| PushChunks.BadNameIff | android/jni/libpng/pngpread.c:736-756 | A name that is not of letters is an error, except right behind image data whose stream has ended: there the chunk goes to its handler. |
| PushChunks.BadCrcFails | android/jni/libpng/pngpread.c:811-819 | Image data with a refused CRC is an error after inflate has had the data, with no event but possibly the info callback. |
| PushChunks.OddNameIsHandled | android/jni/libpng/pngpread.c:736-756 | The name `a.bc` fails in front of the image data and is handed out behind it. |
| PushStream.NetworkOrder | android/jni/libpng/pngpread.c:198-216 | Chunk lengths are read in network order: of two, the one with the smaller first different byte is smaller. |
| PushVerdict.StreamIsRead | android/jni/libpng/pngpread.c:145-311 | Every regular datastream that the callees accept is read to its end, whatever follows it: each chunk goes to its handler once and in order with its data and CRC, inflate gets exactly the joined IDAT data, the end callback comes last, and the info callback is made if and only if the first IDAT is not empty. |
| PushVerdict.CutStreamIsRead | android/jni/libpng/pngpread.c:30-42 | The same for the datastream cut into any pieces. |
| PushInfo.InfoShownIff | android/jni/libpng/pngpread.c:233-245 | The info callback is among the events of a file if and only if its first IDAT chunk has data. |
| PushInfo.EmptyFirstImage | android/jni/libpng/pngpread.c:233-245 | A regular, accepted file with an empty first IDAT chunk is read to its end without the info callback. |
| PushVerdict.RegularIff | android/jni/libpng/pngpread.c:232-311 | A regular datastream reaches the end if and only if every handler accepts, IHDR and any needed PLTE come before the image, and inflate has ended behind the last IDAT; in every other case the reader has failed. |
| Adam7.MaskTable | android/jni/libpng/png.h:2621-2623 | The two packed constants hold the seven row masks, and the column mask of a pass is the row mask of the next one. |
| Adam7.MacroTables | android/jni/libpng/png.h:2578-2597 | The start and shift macros give the starts and steps of the standard's table. |
| Adam7.ExactlyOnePass | android/jni/libpng/png.h:2621-2628 | A pixel is in a pass by the mask tests if and only if that is its one pass. |
| Adam7.RowsEnumerated | android/jni/libpng/png.h:2601-2611 | Row k of a pass is a row of the image in that pass, inside the image exactly for k below the row count, and every image row of the pass is one of them. |
| Adam7.ColsEnumerated | android/jni/libpng/png.h:2603-2613 | The same for columns. |
| Adam7.RowsCounted | android/jni/libpng/png.h:2601-2602 | The row macro is the number of image rows in the pass, counted one by one. |
| Adam7.ColsCounted | android/jni/libpng/png.h:2603-2604 | The column macro is the number of image columns in the pass, counted one by one. |
| Adam7.PixelsAddUp | android/jni/libpng/png.h:2601-2604 | The pixels of the seven passes add up to width times height. |
| RowMachine.RowReader.FinishRow | android/jni/libpng/pngpread.c:1165-1228 | The next row of the pass, or the first row of the next pass that has pixels with its width and row count; pass 7 is final. |
| RowMachine.RowReader.AdvancePass | android/jni/libpng/pngpread.c:1198-1225 | The do-while loop with its width tests finds the next pass that has pixels, and its sizes are the macro counts. |
| RowMachine.RowReader.Expand | android/jni/libpng/pngpread.c:987-1145 | Each unrolled case of the switch makes exactly the callbacks of one data row and lands on the next one, in this pass or a later one. |
| RowMachine.RowReader.ProcessRow | android/jni/libpng/pngpread.c:983-1155 | Entered with k data rows of the pass used, the row counter stands at `PNG_ROW_FROM_PASS_ROW(k, pass)` (at k without PNG_INTERLACE); one call uses exactly one data row and extends the callbacks along the schedule of the image. |
| RowMachine.RowReader.ReadRows | android/jni/libpng/pngpread.c:936-1228 | For every width and height the callbacks made are exactly those that are due, each once and in ascending order of pass and row, with the data rows of all passes used up, and the machine stops in pass 7. |
| RowMachine.DataRowShownAt | android/jni/libpng/pngpread.c:990-1145 | In a pass with PNG_INTERLACE data row k is handed out first at image row `PNG_ROW_FROM_PASS_ROW(k, pass)` and only up to the next data row's position, and that row lies in the image exactly for k below the row count. |
| RowMachine.EachRowOnce | android/jni/libpng/pngpread.c:990-1145 | In the callbacks of the passes below any one, a callback occurs if and only if its pass is visited and its row is below the row count, it is the one the schedule has for that row, and they are strictly ascending by pass and row, so each occurs once. |
| RowMachine.LiveIff | android/jni/libpng/pngpread.c:1188-1225 | A pass is run if and only if the image has a column in it and, without PNG_INTERLACE, also a row. |
| RowMachine.AllPixelsRead | android/jni/libpng/pngpread.c:1188-1224 | The passes that are visited hold width times height pixels: skipping an empty pass loses none. |
| RowSchedule.ReaderAt | android/jni/libpng/pngpread.c:983-1228 | A row machine that has used n data rows stands in the pass and on the row that the schedule gives for n, knows the width of its next row, has made the callbacks of n data rows, and its test for the last row holds exactly behind it. |
| RowSchedule.OneRowMore | android/jni/libpng/pngpread.c:987-1155 | One more data row only adds callbacks, in this pass and in passes without data rows, and each hands out that data row or nothing. |
| JsonValue.EqualIsIdentity | android/jni/jsoncpp/json_value.cpp:629-668 | `==` holds between two values if and only if they are the same value, null strings and keys included. |
| JsonValue.Trichotomy | android/jni/jsoncpp/json_value.cpp:565-609 | Exactly one of a < b, a == b, b < a holds, through type order, size, and the pairs of nested maps. |
| JsonValue.Transitive | android/jni/jsoncpp/json_value.cpp:565-609 | `<` is transitive. |
| JsonValue.StrictOrder | android/jni/jsoncpp/json_value.cpp:565-668 | `<` is irreflexive, and `==` is what is neither less nor greater. |
| JsonOrder.StringOrderIff | android/jni/jsoncpp/json_value.cpp:217-223 | A string is less than another one if and only if it is a proper prefix of it or has the smaller byte where they first differ. |
| JsonOrder.ValueOrderIff | android/jni/jsoncpp/json_value.cpp:565-607 | `operator<` is this order: types by their number, numbers by size, false before true, no string before a string, maps by size first and then by the first entry that differs. |
| JsonOrder.ParsedIsInOrder | android/jni/jsoncpp/json_reader.cpp:480-536 | In every object of every parsed value the names stand in ascending byte order, in every array the indices ascend. |
| JsonOrder.PutThenAt | android/jni/jsoncpp/json_value.cpp:1022-1040 | What is stored under a name is found there, in place of an earlier value, and all other names keep what they had. |
| JsonOrder.PutHolds | android/jni/jsoncpp/json_value.cpp:1022-1040 | The entries after a store are the new one and the old ones with other names. |
| JsonGrammar.ParseIsHonest | android/jni/jsoncpp/json_reader.cpp:151-192 | On every byte string, with every features setting and every old root, parsing ends and succeeds if and only if no error is recorded. |
| JsonGrammar.ValueIsHonest | android/jni/jsoncpp/json_reader.cpp:195-242 | A value operation either succeeds and leaves the error list alone, or fails and adds exactly one error; recovery takes nothing away that was there before. |
| JsonGrammar.ReadValue | android/jni/jsoncpp/json_reader.cpp:194-242 | Reading never moves back, and a value that is read has used at least one byte; this ends the recursion on every text. |
| JsonLexer.ReadToken | android/jni/jsoncpp/json_reader.cpp:273-345 | Every token but the end of the text uses at least one byte. |
| JsonLexer.StringHasQuotes | android/jni/jsoncpp/json_reader.cpp:463-476 | A string token has both its quotes, so the text between them can be cut out. |
| JsonCharacters.LongestRuns | android/jni/jsoncpp/json_reader.cpp:348-360 | White space of the four characters of RFC 4627 is passed to its end, and a number token goes on as long as there are digits, `.`, `e`, `E`, `+` and `-`. |
| JsonCharacters.WordsIff | android/jni/jsoncpp/json_reader.cpp:307-318 | `t`, `f` and `n` begin a token that is right if and only if the rest of `true`, `false` or `null` follows. |
| JsonCharacters.UnknownCharacter | android/jni/jsoncpp/json_reader.cpp:274-345 | Every character that begins nothing is an error token of its own. |
| JsonCharacters.SlashIff | android/jni/jsoncpp/json_reader.cpp:377-403 | A slash begins a comment if and only if a second one follows, or a star with a star and a slash somewhere behind it; all else is an error token. |
| JsonCharacters.StringEnds | android/jni/jsoncpp/json_reader.cpp:463-476 | A string ends at the first quote that no backslash hides, and is an error if and only if there is none. |
| JsonCharacters.UnescapeIff | android/jni/jsoncpp/json_reader.cpp:671-696 | The letters behind a backslash and what they stand for are those of RFC 4627. |
| JsonCharacters.HexIff | android/jni/jsoncpp/json_reader.cpp:739-755 | The digits of an escape are the hexadecimal ones in both cases, with their values. |
| JsonComments.BlockCommentEnds | android/jni/jsoncpp/json_reader.cpp:425-435 | A block comment ends behind the first star and slash; it is an error, up to the end of the text, if and only if there are none. |
| JsonComments.LineCommentEnds | android/jni/jsoncpp/json_reader.cpp:438-448 | A line comment ends behind the first line break or at the end of the text, and is never an error. |
| JsonComments.LexBlockComment | android/jni/jsoncpp/json_reader.cpp:377-403 | A body without an early end, between its marks, is one comment token, whatever follows. |
| JsonComments.LexLineComment | android/jni/jsoncpp/json_reader.cpp:377-403 | So is a line without a break, with its two slashes and its line break. |
| JsonComments.CommentsChangeNothing | android/jni/jsoncpp/json_reader.cpp:245-262 | Comments that are put between the tokens of an accepted text, not in front of a colon and not inside `[]`, change neither verdict nor value. |
| JsonComments.CommentBeforeColon | android/jni/jsoncpp/json_reader.cpp:500-506 | A comment between a name and its colon is refused, in every text. |
| JsonComments.CommentInBrackets | android/jni/jsoncpp/json_reader.cpp:539-556 | A comment between two brackets is refused, in every text. |
| JsonComments.CommentHidesComma | android/jni/jsoncpp/json_reader.cpp:515-533 | Behind a member, any token but the end stands for the comma if a comment is in front of it. |
| JsonComments.UnwantedComment | android/jni/jsoncpp/json_reader.cpp:484-492 | With comments switched off, one in front of a value is refused and one inside an object is not. |
| JsonSound.ParseIsSound | android/jni/jsoncpp/json_reader.cpp:151-192 | After every successful parse, and after a failed one if the root was proper before: integers are in their range, unsigned only beyond the signed range, strings end before a NUL, arrays have no holes, member names are strictly ascending. |
| JsonSound.NumberIsSound | android/jni/jsoncpp/json_reader.cpp:581-617 | The accumulated number never leaves 32 bits and its negation is never out of range. |
| JsonSound.PutKeepsNames | android/jni/jsoncpp/json_value.cpp:1021-1040 | Inserting or replacing at the lower bound keeps the names of a map strictly ascending. |
| JsonReader.Reader.Parse | android/jni/jsoncpp/json_reader.cpp:151-192 | The reader on its fields gives the verdict, root and errors of the reading functions; it ends with the position inside the document and one node on the stack, and returns true if and only if the error list is empty. |
| JsonReader.Reader.ReadOneValue | android/jni/jsoncpp/json_reader.cpp:194-242 | Reading a value changes the tree at the current node and nowhere else, moves the position forward only, and leaves the node stack as it was. |
| JsonReader.Reader.ReadObject | android/jni/jsoncpp/json_reader.cpp:479-536 | The same for the member loop, on every path through its error recoveries. |
| JsonReader.Reader.ReadItemList | android/jni/jsoncpp/json_reader.cpp:538-578 | The same for arrays. |
| JsonReader.Reader.ReadChild | android/jni/jsoncpp/json_reader.cpp:508-513 | The node stack is restored, and the container changes by the one child that was read. |
| JsonReader.Reader.NextLexed | android/jni/jsoncpp/json_reader.cpp:273-345 | Token and position after every lexer loop, also at the NUL behind the text. |
| JsonReader.Reader.SkipOverSpaces | android/jni/jsoncpp/json_reader.cpp:348-359 | The position moves over all white space and no further. |
| JsonReader.Reader.Match | android/jni/jsoncpp/json_reader.cpp:362-374 | The backward comparison succeeds if and only if the text goes on with the pattern, and only then moves. |
| JsonReader.Reader.ReadString | android/jni/jsoncpp/json_reader.cpp:463-476 | The loop ends behind the first quote that no backslash hides, or fails at the end of the text. |
| JsonReader.Reader.ReadBlockComment | android/jni/jsoncpp/json_reader.cpp:425-435 | The loop ends behind the first star and slash, or fails at the end of the text. |
| JsonReader.Reader.SkipCommentTokens | android/jni/jsoncpp/json_reader.cpp:245-260 | The token is the first one that is no comment, if comments are allowed. |
| JsonReader.Reader.RecoverFromError | android/jni/jsoncpp/json_reader.cpp:773-788 | Skipping ends behind the wanted token or at the end of the text, with exactly the errors from before. |
| JsonReader.Reader.DecodeText | android/jni/jsoncpp/json_reader.cpp:657-701 | The decoded string or the one error that is added, for every string token. |
| JsonReader.Reader.DecodeHex | android/jni/jsoncpp/json_reader.cpp:733-756 | The value of the four digits, or the one error that is added. |
| JsonReader.Reader.DecodeCodePoint | android/jni/jsoncpp/json_reader.cpp:703-731 | The code point and the position behind one or two escapes, always inside the token. |
| JsonReader.Reader.DecodeNumberText | android/jni/jsoncpp/json_reader.cpp:581-617 | The number, the fall-back to double or the error, for every number token. |
| JsonTree.ChildInserted | android/jni/jsoncpp/json_reader.cpp:511-514 | Pushing a reference to a new or old child, reading into it and popping it changes the container by that child only. |
| JsonRoundTrip.QuotedIsDecoded | android/jni/jsoncpp/json_writer.cpp:111-172 | Every string without NUL comes back from its literal, through all escapes and `\u00XX`. |
| JsonSpelling.SpelledAs | android/jni/jsoncpp/json_writer.cpp:111-172 | Quote, backslash and five controls are written with their short escapes, the other controls as `\u00` with two upper-case digits, and every other character as itself. |
| JsonSpelling.ShortestSpelling | android/jni/jsoncpp/json_writer.cpp:111-172 | No literal of RFC 4627 that is read as a character is shorter than the one that is written. |
| JsonSpelling.NoLeadingZero | android/jni/jsoncpp/json_writer.cpp:30-54 | Numbers are written without leading zeros. |
| JsonRoundTrip.IntIsDecoded | android/jni/jsoncpp/json_reader.cpp:597-617 | An integer is read as itself if and only if it lies between -2147483639 and 4294967289; all others go to the double decoder. |
| JsonRoundTrip.ReadsBack | android/jni/jsoncpp/json_reader.cpp:195-242 | On every text that is the tokens of a value with any white space between them, the reader gives that value back without an error and stops right behind its last token. |
| JsonRoundTrip.ReadsBackIff | android/jni/jsoncpp/json_reader.cpp:195-242 | A written value is read back without an error if and only if every integer outside the exact range has a text that the double decoder reads. |
| JsonSyntax.DocReads | android/jni/jsoncpp/json_reader.cpp:194-578 | Every text of the grammar, with any white space between its tokens and all escapes: the reader gives its meaning and stops behind its last token if the document is accepted, and fails if it is not. |
| JsonSyntax.DecodesIff | android/jni/jsoncpp/json_reader.cpp:664-701 | The text between two quotes, of any characters and escapes, is decoded to its meaning if and only if every first surrogate half is followed at once by an escape with four digits, and refused otherwise. |
| JsonSyntax.RfcTextIff | android/jni/jsoncpp/json_reader.cpp:151-192 | Every array or object text of RFC 4627, whatever follows it, is accepted with its value if and only if no first surrogate half in it stands alone, provided that the double decoder reads the numbers of the grammar. |
| JsonSyntax.BracketBehindRoot | android/jni/jsoncpp/json_reader.cpp:151-192 | `null]` is accepted as null. |
| JsonLanguage.AcceptedIff | android/jni/jsoncpp/json_reader.cpp:151-578 | A text is accepted if and only if its tokens begin with a value of a grammar over tokens, in the strict mode with an array, an object or a null; neither the old root nor what follows matters. |
| JsonLanguage.ValueIn | android/jni/jsoncpp/json_reader.cpp:194-242 | What is read from any token on is a value of that grammar, and the text is left right behind it. |
| JsonLanguage.ValueOf | android/jni/jsoncpp/json_reader.cpp:194-242 | Every value of the grammar is read, whatever stands behind it. |
| JsonLanguage.TrailingCommaIff | android/jni/jsoncpp/json_reader.cpp:483-534 | A comma in front of the closing brace is accepted if and only if the name in front of it is empty. |
| JsonErrors.ErrorIff | android/jni/jsoncpp/json_reader.cpp:151-242 | For a text that is refused the first error is what is first wrong with its tokens, by a grammar of what is expected at each place; it is the only one, but for the root error of the strict mode. |
| JsonErrors.NoMissingArrayEnd | android/jni/jsoncpp/json_reader.cpp:566-573 | No text gets the error about a missing comma or bracket in an array. |
| JsonEscapes.EscapeError | android/jni/jsoncpp/json_reader.cpp:657-756 | The error of a string is decided by its first wrong escape: nothing behind the backslash, a wrong letter, too few or wrong digits, or a first surrogate half without an escape behind it. |
| JsonErrors.ItemsStay | android/jni/jsoncpp/json_reader.cpp:538-578 | After an error in an array the items in front of it are there, and the item with the error as far as it was read. |
| JsonErrors.MemberStays | android/jni/jsoncpp/json_reader.cpp:507-513 | The same for the member of an object with the error. |
| JsonErrors.FailedScalar | android/jni/jsoncpp/json_reader.cpp:194-242 | A token that is no value leaves the place in the tree as it was. |
| JsonNumbers.NumberAcceptedIff | android/jni/jsoncpp/json_reader.cpp:581-617 | A number token is refused if and only if it is left to the double decoder and that does not read it; the digit error cannot occur. |
| JsonNumbers.LeadingZero | android/jni/jsoncpp/json_reader.cpp:581-617 | `01` is no number of RFC 4627 and is read as 1. |
| JsonNumbers.StoreInsideIff | android/jni/jsoncpp/json_reader.cpp:620-643 | For a number token the NUL is stored inside the array if and only if the token does not have exactly 32 characters or is not left to `decodeDouble`. |
| JsonNumbers.StoreOutside | android/jni/jsoncpp/json_reader.cpp:620-643 | A token of 32 characters for which the store is behind the array. |
| JsonSeparators.SeparatorIff | android/jni/jsoncpp/json_reader.cpp:559-575 | Wherever two items follow one another in an array, both and nothing else are read if and only if the token between them is not the closing bracket, whatever else it is. |
| JsonSeparators.WrittenSeparatorIff | android/jni/jsoncpp/json_reader.cpp:559-575 | The same for any two written values and any text between them. |
| JsonSeparators.AnySignSeparatesIff | android/jni/jsoncpp/json_reader.cpp:559-575 | Every character that is a token of its own, right or wrong, stands for the comma, except `]`. |
| JsonSeparators.ErrorTokenSeparates | android/jni/jsoncpp/json_reader.cpp:559-575 | `[null@null]` is accepted as an array of two nulls, although its third token is an error. |
| JsonSeparators.NumberIsLost | android/jni/jsoncpp/json_reader.cpp:559-575 | `[1 2 3]` is accepted as the array of 1 and 3. |
| JsonTheorems.SpacedIsRead | android/jni/jsoncpp/json_reader.cpp:151-192 | `parse` on any spacing of a value's tokens gives the value, whatever the root held; strict mode adds one error exactly for roots that are not array, object or null. |
| JsonTheorems.FastRoundTrip | android/jni/jsoncpp/json_writer.cpp:197-263 | What FastWriter writes, with either colon, is read back as the value, with unsigned numbers that fit made signed and holes made null. |
| JsonTheorems.StyledRoundTrip | android/jni/jsoncpp/json_writer.cpp:276-400 | The same for StyledWriter. |
| JsonTheorems.FaithfulIff | android/jni/jsoncpp/json_writer.cpp:197-263 | The value itself comes back if and only if its integers are in the exact range, its unsigned numbers exceed the signed range, and its arrays have no holes. |
| JsonTheorems.ReadWriteRead | android/jni/jsoncpp/json_reader.cpp:151-192 | Whatever text was read without a double in the result, over whatever old root, writing that result with either writer and reading it again gives exactly the same value. |
| JsonTheorems.LayoutSqueezes | android/jni/jsoncpp/json_writer.cpp:276-480 | Deleting the white space outside of string literals from StyledWriter's text leaves FastWriter's text. |
| JsonLayout.LayoutWrites | android/jni/jsoncpp/json_writer.cpp:290-400 | From any document and indentation, the layout pass adds the tokens of the value and white space, and nothing else. |
| JsonLines.StyledLines | android/jni/jsoncpp/json_writer.cpp:276-457 | Cut at its line feeds, the styled text is exactly these lines: each item and member of a container on several lines begins a line of its own behind three spaces for each level, with a comma at its end if another one follows, and the closing bracket stands on a line at the level of its container. |
| JsonLines.OneLineIff | android/jni/jsoncpp/json_writer.cpp:403-433 | An array with items is on one line if and only if no item has content of its own, three times their number is below 74, and its text is shorter than 74 characters. |
| JsonWriter.UintToString | android/jni/jsoncpp/json_writer.cpp:30-40 | The digits written backwards are the decimal of the number, NUL-terminated, in at most eleven bytes of the buffer. |
| JsonWriter.IntToString | android/jni/jsoncpp/json_writer.cpp:42-54 | The decimal of every 32-bit integer, the least one included; the 32-byte buffer suffices. |
| JsonWriter.ToQuotedString | android/jni/jsoncpp/json_writer.cpp:111-172 | The short way for plain strings and the escaping loop give the same literal, the one `QuotedIsDecoded` is about. |
| JsonWriter.FastWriter.Write | android/jni/jsoncpp/json_writer.cpp:197-204 | The text is the tokens of the value behind one another and a line feed. |
| JsonWriter.FastWriter.WriteValue | android/jni/jsoncpp/json_writer.cpp:207-263 | The document grows by the tokens of the value, holes of arrays written as null. |
| JsonStyledWriter.StyledWriter.WriteValue | android/jni/jsoncpp/json_writer.cpp:290-349 | In spite of the shared child texts and the mode flag the document grows as the stateless layout says; while texts are collected exactly one is added; indentation and flag are restored. |
| JsonStyledWriter.StyledWriter.Write | android/jni/jsoncpp/json_writer.cpp:276-287 | The text is the stateless layout of the value, and the indentation is back to nothing. |
| JsonStyledWriter.StyledWriter.WriteArrayValue | android/jni/jsoncpp/json_writer.cpp:351-400 | For one line and for several the document grows as the layout says, and the saved texts are as many as the items when they are used. |
| JsonStyledWriter.StyledWriter.MeasureLine | android/jni/jsoncpp/json_writer.cpp:417-428 | Collecting leaves exactly the texts of all items, in order, their total length is counted, and the document is untouched. |
| JsonStyledWriter.StyledWriter.WriteIndent | android/jni/jsoncpp/json_writer.cpp:445-457 | A new line and the indentation, unless the document ends in a space. |
| JsonStyledWriter.StyledWriter.IsMultilineArray | android/jni/jsoncpp/json_writer.cpp:404-433 | The decision is that of the layout, the document is untouched, and the child texts are either none or those of all items; for a single line they are all there, as the assertion in the code says. |
| JsonStyledWriter.StyledWriter.WriteLines | android/jni/jsoncpp/json_writer.cpp:357-386 | Writing saved child texts and writing the children anew give the same lines. |
| JsonStyledWriter.StyledWriter.Unindent | android/jni/jsoncpp/json_writer.cpp:475-480 | The asserted length is there at every call, and unindenting undoes one indentation. |
| JsonUnicode.Utf8IsReadIff | android/jni/jsoncpp/json_reader.cpp:69-103 | The bytes written for a code point up to U+10FFFF are its encoding by RFC 3629, shortest form and no surrogates, if and only if it is no surrogate. |
| JsonUnicode.EscapeIsEncodedIff | android/jni/jsoncpp/json_reader.cpp:703-731 | What is written for one or two escapes is well-formed if and only if the first one is no second surrogate half. |
| JsonUnicode.LoneLowSurrogate | android/jni/jsoncpp/json_reader.cpp:703-731 | `\uDC00` is accepted and written as ED B0 80, which is no UTF-8. |
| JsonUnicode.LoneHighSurrogate | android/jni/jsoncpp/json_reader.cpp:710-714 | `\uD800` at the end of a string is refused. |
| JsonUnicode.SurrogatesJoin | android/jni/jsoncpp/json_reader.cpp:703-731 | A pair of escapes gives the code point if and only if the second escape has its low ten bits; whether it is a low surrogate does not matter. |
| BatchAllocator.AllocateIsSafe | android/jni/jsoncpp/json_batchallocator.h:54-76 | The returned block is in its page, not in use, and overlaps no block in use; the invariant stays. |
| BatchAllocator.RunIsSafe | android/jni/jsoncpp/json_batchallocator.h:30-86 | After every run of allocations and legal releases the next block overlaps none in use, and what was cut from the pages is exactly what is in use and what is free, once. |
| BatchAllocator.SafeIff | android/jni/jsoncpp/json_batchallocator.h:60-112 | All blocks of all runs lie inside their pages if and only if a page holds a whole number of blocks. |
| BatchAllocator.NeverFull | android/jni/jsoncpp/json_batchallocator.h:61-75 | When a page does not hold a whole number of blocks, the test for its end is never met and one page is used for ever. |
| BatchAllocator.ReleaseThenAllocate | android/jni/jsoncpp/json_batchallocator.h:54-85 | The block released last is handed out first, and then the pool is what it was before. |
| BatchAllocator.Allocator.Allocate | android/jni/jsoncpp/json_batchallocator.h:54-76 | The linked free list and the page list implement the abstract allocator; all pages but the current one are full, so the search always ends in a new page. |
| BatchAllocator.Allocator.NextBatch | android/jni/jsoncpp/json_batchallocator.h:61-72 | The walk over the page list finds no page with room and ends, and one new page is linked in front. |
| BatchAllocator.Allocator.Release | android/jni/jsoncpp/json_batchallocator.h:80-85 | The block becomes the head of a free list that stays acyclic and apart from the blocks in use. |
| BatchAllocator.Allocator.Write | android/jni/jsoncpp/json_batchallocator.h:30-86 | Whatever the user writes into a block in use, the free list is not damaged. |
| MulDiv.PngMulDiv | android/jni/libpng/png.c:3193-3273 | For every triple of 32-bit arguments the word algorithm returns the specified result; zero operands and a zero divisor included. |
| MulDiv.WideProduct | android/jni/libpng/png.c:3213-3228 | The four 16-bit partial products with their carry are the exact 64-bit product. |
| MulDiv.Divide | android/jni/libpng/png.c:3230-3258 | The 32-step shift and subtract loop leaves the exact quotient and remainder. |
| MulDiv.SubtractIfNotLess | android/jni/libpng/png.c:3249-3257 | The two-word comparison and subtraction with its borrow is exact on the 64-bit values. |
| MulDiv.Finish | android/jni/libpng/png.c:3260-3272 | Rounding, negation and the sign test in 32-bit words report success exactly for the magnitudes that fit, and for 2^32. |
| MulDiv.ScaledIsSignedQuotient | android/jni/libpng/png.c:3194-3273 | The call succeeds with the rounded quotient and the sign of the true one if and only if that fits 32 bits; the one other success is a rounded magnitude of 2^32. |
| MulDiv.NearestIff | android/jni/libpng/png.c:3260-3262 | Rounding is to the nearest if and only if the divisor is even or the remainder is not its half rounded down. |
| MulDiv.RoundingError | android/jni/libpng/png.c:3260-3262 | The result lies above the exact quotient minus one and at most one above it, exactly one above it only for a divisor of one. |
| MulDiv.QuotientIsNear | android/jni/libpng/png.c:3194-3273 | Whatever the signs of the three arguments, a result times the divisor is the product up to the divisor, unless the magnitude has wrapped. |
| MulDiv.DivideByOneIsOffByOne | android/jni/libpng/png.c:3260-3262 | A division by one returns the product plus one. |
| MulDiv.SilentWrap | android/jni/libpng/png.c:3260-3272 | 65535 * 65537 / 1 is reported as success with the value 0. |
| Chromaticity.CrossBound | android/jni/libpng/png.c:1428-1456 | Twice the area of any triangle of points that pass the range checks is at most 10^10. |
| Chromaticity.NeverInternalError | android/jni/libpng/png.c:1425-1453 | For all chromaticities that pass the range checks, return code 2 cannot happen. |
| Chromaticity.DeterminantsExact | android/jni/libpng/png.c:1428-1453 | No subtraction of two scaled products wraps, and each is the exact determinant over seven within 8/7. |
| Chromaticity.XYZFromXy | android/jni/libpng/png.c:1230-1488 | The code with its out-parameters gives, for every set of chromaticities, the inversion written with exact scaled quotients and wrapping words, and never return code 2. |
| Chromaticity.SearchScales | android/jni/libpng/png.c:1425-1456 | The scales and the early returns are those of the exact scaled quotients. |
| Chromaticity.BlueScaleFitsIff | android/jni/libpng/png.c:1458-1463 | For inverse scales that pass the checks the blue scale fits 32 bits if and only if white y is at least 5 units or the two inverse scales are no pair of the table: 5 with up to 67, 6 with up to 20, 7 with up to 13, 8 with up to 11, 9 with 9. |
| Chromaticity.StoredBlueScaleIff | android/jni/libpng/png.c:1425-1463 | For every set of chromaticities that gets as far, the stored blue scale is the exact difference under the same condition and no other. |
| Chromaticity.BlueScaleWraps | android/jni/libpng/png.c:1458-1487 | Chromaticities that pass every check before it, make the blue scale wrap to a positive number, and are accepted. |
| Chromaticity.EndPointsMatch | android/jni/libpng/png.c:1467-1487 | On success X and Y of each end point are its chromaticity x and y times X + Y + Z, within 100000 + x (or y) in units of 10^-5. |
| Chromaticity.EndPointsAddUp | android/jni/libpng/png.c:1458-1487 | For a white y of at least 5 units the sums X + Y + Z of the three end points add up to the reciprocal of white y within 11. |
| WhitePoint.ScalesAreRatios | android/jni/libpng/png.c:1371-1456 | Both inverse scales are white y times the area of the triangle over the area with white in place of red, or of green, within an explicit bound. |
| WhitePoint.WhiteMatches | android/jni/libpng/png.c:1330-1488 | Whenever the inversion succeeds for a white y of at least 5 units, the X, the Y and the Z of the three end points add up to those of the white point with its Y scaled to one, within an explicit tolerance. |
| WhitePoint.DarkWhiteWraps | android/jni/libpng/png.c:1458-1463 | For a smaller white y it succeeds only because a negative blue scale wraps. |
| WhitePoint.InsideIsAccepted | android/jni/libpng/png.c:1425-1488 | Chromaticities are accepted if white lies inside the triangle of the primaries by a margin in terms of the exact determinants. |
| WhitePoint.AcceptedIsInside | android/jni/libpng/png.c:1425-1488 | They are accepted only if all are on the chart and white is not outside the triangle by more than a margin of that kind. |
| WhitePoint.SrgbIsAccepted | android/jni/libpng/png.c:1400-1420 | The chromaticities of sRGB are accepted, and their end points add up to white within 18 units. |
| GrayCoefficients.Roundings | android/jni/libpng/png.c:2376-2385 | For all non-negative Y values with a total of at least two, each rounded coefficient lies in 0..32768 and the sum is 32768 up to one. |
| GrayCoefficients.SumOffByOne | android/jni/libpng/png.c:2376-2385 | Three coefficients rounded one by one add up to 32767, 32768 or 32769. |
| GrayCoefficients.Correct | android/jni/libpng/png.c:2390-2405 | The correction makes the sum exactly 32768 by changing one largest coefficient by one, green before red before blue, and none goes negative. |
| GrayCoefficients.Balance | android/jni/libpng/png.c:2366-2417 | Coefficients that add up to 32768 and are each off by less than two units come out if and only if the Y values are non-negative with a total of at least two; the first internal error is unreachable. |
| GrayCoefficients.TotalOfOne | android/jni/libpng/png.c:2376-2385 | With a total of one, one coefficient comes out as 32769, which the range check refuses. |
| GammaTable.Build | android/jni/libpng/png.c:3855-3879 | For any gamma function every cell of every sub-table holds 257 times the least output whose boundary is above the cell's input, with all stores in bounds. |
| GammaTable.BoundFits | android/jni/libpng/png.c:3862-3865 | The rounding of a boundary stays inside 32 bits and inside the table. |
| GammaTable.Monotone | android/jni/libpng/png.c:3855-3879 | The table is monotone in its input, also for a gamma that is not. |
| GammaTable.Segments | android/jni/libpng/png.c:3858-3872 | For an increasing gamma output i is used exactly between boundaries i - 1 and i. |
| GammaTable.CellsAreSamples | android/jni/libpng/png.c:3867-3879 | Two cells are for the same input only if they are the same cell, and every input has its cell inside the table. |
| GammaTable.LookupIsCell | android/jni/libpng/png.c:4019-4036 | The cell in which a 16-bit sample is looked up is the one for the sample without its dropped bits. |
| GammaTable.CellHolds | android/jni/libpng/png.c:3836-3879 | For an increasing gamma a cell holds output i if and only if its sample lies above the corrected midpoint below i and not above the one over it, each scaled to the bits of the sample and rounded. |
| GammaTable.FullSamples | android/jni/libpng/png.c:3858-3872 | With all 16 bits the midpoints are not scaled or rounded. |
| GammaTable.ClosestIff | android/jni/libpng/png.c:3836-3842 | Without correction every cell holds the output that is closest to its sample if and only if no bits are dropped or all eight low ones; for every other number of bits there is a sample with a wrong output. |
| FpText.Resume | android/jni/libpng/png.c:2565-2690 | Running on a consumed prefix and then on the rest is one run. |
| FpText.StepIsExtend | android/jni/libpng/png.c:2573-2680 | The automaton takes a character if and only if the text read so far can go on with it in the grammar, and its state is that of the longer text. |
| FpText.CheckFpString | android/jni/libpng/png.c:2695-2706 | The result is not 0 if and only if the number ends at the end of the string or at its NUL, and then it is the flag word of the automaton's state. |
| FpText.AcceptsIff | android/jni/libpng/png.c:2695-2706 | A string is accepted if and only if what stands before its NUL is a sign, a mantissa with a digit, and an optional exponent. |
| FpText.NumberIsAccepted | android/jni/libpng/png.c:2565-2706 | The flags of an accepted number say that the mantissa has a minus, and that it has a non-zero digit. |
| FpText.CheckFpNumber | android/jni/libpng/png.c:2569-2690 | The loop on the `int` flag word, with its masks and the sticky flags that setting a state keeps, runs the automaton from every earlier word and position. |
| FpText.NextWordIsStep | android/jni/libpng/png.c:2608-2680 | For every word that the loop can hold the switch on state and type does what the automaton does, its jumps to the end included. |
| FpText.DecodedDetermines | android/jni/libpng/pngpriv.h:1726-1741 | The flag word and the automaton state determine each other. |
| FixedText.AsciiFromFixed | android/jni/libpng/png.c:3066-3132 | For every 32-bit value a buffer of 13 bytes gets a minimal NUL-terminated decimal whose value times 100000 is the argument, and the bytes behind it stay; a smaller buffer is refused untouched. |
| FixedText.SplitDigits | android/jni/libpng/png.c:3084-3099 | The loop stores all decimal digits, the lowest first, and remembers the lowest that is not zero; ten places suffice. |
| FixedText.PartsDenote | android/jni/libpng/png.c:3101-3122 | The digits printed before and after the point denote the magnitude exactly. |
| FixedText.PrintedIsAccepted | android/jni/libpng/png.c:3066-3132 | The number test accepts every printed value, with flags that match its sign and zeroness. |

## Left out

- Double arithmetic: `decodeDouble` and `sscanf` are a function, `valueToString(double)` and the double branches of `png.c`, among them the one of `png_muldiv`, are not modelled; JSON values with reals are not written, and NaN does not occur.
- Comments in JSON are skipped by the reader as in the code but not stored, and the writers see values without comments.
- Error texts and locations of the JSON reader: the kind of every error is kept, its formatted message and position are not.
- CRC, chunk handlers, row filters, interlace expansion and application callbacks are parameters or events; their bodies are not part of this model. Each handler uses exactly its chunk and CRC, and no chunk is registered as unknown.
- The decompressor behind `inflate` is a parameter, a machine whose output is fixed byte by byte; a call ends when the output space is full, after reading ahead as far as it likes, at the end or damage of the stream, or when its input is used up. `Z_BUF_ERROR` does not occur, as there is always input and space.
- PushSplit.SplitIndependence: compares the fact of having failed, not the text of the error, which for a wrong signature does depend on the cut (`PushSignature.ErrorTextDependsOnCut`), and takes inflate byte by byte. With a library that reads ahead, a damaged end of the compressed stream right behind the last row is an error in one piece and only a warning when the input is cut in front of it (`PushAhead.CutDecides`); `PushAhead.ReadingAhead` proves this to be the one exception for the image data, but not for the whole reader on top.
- Failing allocations, and the wrap of `size_t` sums and of `int` array sizes and indices from 2^31 on.
- Entering skip mode, `png_process_data_pause` and `png_process_data_skip`: nothing in the file enters that mode, so it is covered as a step only.
- Images without interlacing in the row machine: one pass of consecutive rows.
- Stack depth of the recursive JSON functions and `StyledStreamWriter`, which repeats `StyledWriter`.
- Value operations that the reader and writers do not use: `resize`, `removeMember`, iterators, paths.
- The renderer, sound, script, JNI and resource code, and the Swift and Objective-C files: foreign calls or stubs.
- A datastream that stops in the middle of a chunk is covered by the steps of `PushSpec` but not by the theorems about lists of chunks.
- WhitePoint.AcceptedIsInside: the margin between it and `WhitePoint.InsideIsAccepted` is left open; there the verdict depends on how two determinants, two quotients and three reciprocals happen to be rounded.
- JsonComments.CommentsChangeNothing: about accepted texts; a text that is refused can become right when a comment is put in (`JsonComments.CommentHidesComma`).
