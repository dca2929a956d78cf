# kidz-draw, modelled in Dafny

kidz-draw is a full-screen drawing program for children. The screen is a
16 × 9 grid of 120-pixel tiles, and each tile may show a texture and
forward touches to a `Touchable`. The canvas paints a pen stamp along every
drag. Buttons change the pen colour, clear the canvas or save a snapshot.
Snapshots are stored as PNG files named after the minute they were taken.
An embedded web server lists and serves them. Cursors are read from a
small text format, and a build tool turns binary files into C++ arrays.

This project models the program's logic, one module per component:

- `Screen` (screen.dfy) models the tile table: `registerTile` and
  `registerTiles`, how an event is routed to a tile and translated into the
  tile's own coordinates, and the event loop. The loop is a fold over
  batches of events that yields the trace of draws, delays, lambda runs and
  frees.
- `Stroke` (stroke.dfy) models the Bresenham-style walk of `Canvas::move`.
- `Handlers` (handlers.dfy) models the canvas and the three buttons as
  `Touchable` variants over a world of canvas operations and snapshots.
  It also replays a sequence of routed calls.
- `SnapShots` (snapshots.dfy) models `Date` and `TimeStamp` with their
  comparison operators, query strings and decimal rendering. It also models
  the snapshot file name and its regular expression, and the sorted
  time-stamp set with `exists`, `newSnapShot`, both `timeStamps` and the
  directory scan. `Decimal` (decimal.dfy) and `Text` (text.dfy) hold the
  number formatting (`std::to_string`, `std::setw` with fill `'0'`,
  `std::atoi`) and the splitting they rely on.
- `Cursor` (cursor.dfy) models the cursor text format: line reading with
  comments, the character classes, the bitmap and mask bits, and the hot
  spot and its errors. It also checks the built-in arrow and empty cursors.
- `Pixels` (pixels.dfy) models `SurfacePixels`: pixel offsets, the read and
  write masks over a little-endian byte buffer, and the lock/unlock
  discipline of its copies.
- `WebServer` (webserver.hh → webserver.dfy) models the resource tree, URL
  lookup by longest prefix, the per-method handler choice and
  `getRequestHandler`. `Httpd` (httpd.dfy) models the response headers,
  the POST field accumulation and the access and completion callbacks.
- `Png` (png.dfy) models the row-pointer tables of `read_image` and
  `write_image`.
- `Embed` (embed.dfy) models the `tools/embed.cc` program as a function
  from its arguments and the input bytes to its exit status, diagnostics
  and output text.

Where the code and its comments or documentation disagree, the model
follows the code:

- A drag of (dx, dy) paints max(|dx|, |dy|) stamps. The first is at the
  pointer (x, y), and the stroke never reaches the previous position
  (x − dx, y − dy). It does not paint intermediate points plus the
  destination.
- A drag is routed by the tile under its current position at every
  event. It does not stay with the tile that took the press.
- On the canvas, `up` paints a stamp and asks for a redraw, as `down` does.
- The cursor reader's comment removal cuts a line at the last space before
  the `#`. A line with no such space is kept whole; see Findings.

## Model

| member | source | states |
|---|---|---|
| Screen.SlotBijection | screen.hh:48-55 | tile (i, j) lives at a slot of the 144-tile array from which its column and row are recovered, so distinct tiles never share a slot |
| Screen.SlotSurjective | screen.hh:48-55 | every slot of the 144-tile array is reached by some column and row |
| Screen.RegisterTile | screen.hh:236-242 | the addressed tile gets the texture, the handler and the source offset (x, y); its size stays 120 × 120 and every other tile is unchanged |
| Screen.RegisterTileKeepsSize | screen.hh:38-42 | registering never changes a tile's 120 × 120 source size |
| Screen.RegisterTileOverwrites | screen.hh:236-242 | registering the same tile twice leaves only the second registration |
| Screen.RegisterTiles | screen.hh:244-249 | every tile of the w × h block gets the texture and handler with source offset (x + 120·ii, y + 120·jj); tiles outside the block are unchanged |
| Screen.BlockCellOffset | screen.hh:244-249 | cell (ii, jj) of a registered block lies in the block with source offset (x + 120·ii, y + 120·jj) |
| Screen.SlotAt | screen.hh:146-148 | an on-screen point falls in the tile of column x / 120 and row y / 120 |
| Screen.LocalWithinTile | screen.hh:146-150 | the coordinates passed to a handler are the tile's source offset plus the point's offset inside its 120-pixel tile |
| Screen.BlockRouting | screen.hh:143-174 | a gesture on a block registered by registerTiles reaches the block's handler (or no one) at x0 + x − 120·i0, y0 + y − 120·j0: one continuous surface |
| Screen.IgnoredInput | screen.hh:143-174 | non-left buttons, motion without the left button held, and tiles without a handler contribute nothing |
| Screen.Dispatch | screen.hh:143-174 | an on-screen gesture reaches a handler exactly when its tile has one, at the tile-local point; a press becomes down, a release up and a drag a move with the same relative motion |
| Screen.BatchRedrawIsOr | screen.hh:128-136 | a batch without quit or Escape asks for a redraw exactly when some event in it owes one (window events, or a handler or lambda answering true) |
| Screen.BatchLambdas | screen.hh:131-136 | every lambda event of a batch runs once, in order, and lands in the trash bin |
| Screen.BatchStopsAtFirstStop | screen.hh:140-141 | the batch ends at its first quit or Escape, with the effects of the events before it only |
| Screen.BatchAppend | screen.hh:129-226 | events of a batch are handled one after the other, each appending its own actions |
| Screen.RunBatch | screen.hh:129-226 | a batch stops exactly when it holds a quit or an Escape key, and everything it records is a handler call or a lambda run |
| Screen.DrawOrder | screen.hh:100-119 | drawing copies exactly the tiles that have a texture, each to its own screen cell with its source rectangle, in row-major order |
| Screen.QuietIterationDelays | screen.hh:228-232 | an iteration whose events owe no redraw delays 1 ms and then frees that batch's lambdas |
| Screen.BusyIterationComposites | screen.hh:228-232 | an iteration whose events owe a redraw records the batch, then one draw of the current tiles, then frees that batch's lambdas, and the loop goes on |
| Screen.StopIterationEnds | screen.hh:138-141 | at the first quit or Escape the loop ends: it records the events before it and frees their lambdas, with no draw or delay after them |
| Screen.Iterate | screen.hh:125-233 | every draw the loop records is of the current tiles, a loop that handled a batch ends by freeing lambdas, and it can only stop inside a batch |
| Screen.EventLoop | screen.hh:121-123 | the loop draws the screen before it polls any event |
| Stroke.Walk | canvas.hh:55-75 | the loop paints exactly the stroke, ends at (x − dx, y − dy), and its error accumulators stay in [0, 2·max(\|dx\|, \|dy\|)) |
| Stroke.StrokeEmptyIffNoMotion | canvas.hh:57-60 | a drag paints nothing exactly when it has no motion |
| Stroke.StrokeStartsAtPointer | canvas.hh:60-62 | the first stamp of a drag is at the pointer |
| Stroke.StrokeConnected | canvas.hh:63-72 | consecutive stamps differ by at most one pixel per axis, always against the motion, and never along an axis without motion |
| Stroke.StrokeInBoundingBox | canvas.hh:55-73 | every stamp lies between the pointer and the previous position |
| Stroke.StrokeNeverPaintsOrigin | canvas.hh:57-73 | the dominant axis moves one pixel per stamp, and no stamp lands on the previous position (x − dx, y − dy) |
| Handlers.Paint | canvas.hh:22-25 | painting appends one pen blit and keeps the earlier operations and the pen |
| Handlers.PaintCentred | canvas.hh:22-25 | the pen image covers the painted point, centred to within one pixel |
| Handlers.PaintAll | canvas.hh:60-62 | painting a sequence of points appends one centred pen blit per point, in order |
| Handlers.Clear | canvas.hh:39 | clearing fills the canvas with white and keeps the pen |
| Handlers.SetColor | canvas.hh:41-48 | setting a colour changes only the pen colour |
| Handlers.CanvasPress | canvas.hh:52-53 | a press or release paints one stamp at the point and asks for a redraw |
| Handlers.CanvasMove | canvas.hh:55-75 | a drag paints one stamp per step and asks for a redraw |
| Handlers.CanvasMoveStamps | canvas.hh:55-75 | the drag's blits are the stroke's points, centred, starting at the pointer; a drag without motion changes nothing; no blit is at the previous position |
| Handlers.Down | buttons/snapshot.hh:40-51 | a press keeps the snapshot set sorted and duplicate-free |
| Handlers.Respond | screen.hh:148-150 | answering a routed call keeps the snapshot set sorted and duplicate-free |
| Handlers.RespondRedraw | screen.hh:18-20 | the redraw answer depends only on the handler and the kind of call: the canvas always asks, the buttons ask only when the clear button is pressed |
| Handlers.ColorButtonSetsPen | buttons/color.hh:31-35 | pressing a colour button sets the pen colour and asks for no redraw |
| Handlers.ClearButtonClears | buttons/clear.hh:28-32 | pressing the clear button fills the canvas with white and asks for a redraw |
| Handlers.ButtonsIgnoreUpAndMove | screen.hh:18-20 | buttons ignore releases and drags |
| Handlers.SnapShotButtonOutcome | buttons/snapshot.hh:40-51 | the snapshot button never asks for a redraw or alters the canvas; in a minute that already has a snapshot nothing changes; otherwise the minute is added and the canvas is saved under its file name when saving succeeds |
| Handlers.Replay | screen.hh:143-174 | replaying calls gives one answer per call and keeps the snapshot set valid |
| Handlers.ReplayAnswers | screen.hh:143-174 | every replayed answer is the one that handler gives for that kind of call |
| Handlers.ReplayPen | buttons/color.hh:31-35 | after a replay the pen has the colour of the last colour button pressed, or its old colour, and its size is unchanged |
| Handlers.ReplayKeeps | buttons/snapshot.hh:40-51 | a replay never removes a snapshot and only appends saved images |
| Handlers.NewCanvas | canvas.hh:28-37 | a new canvas registers its block of tiles at offsets 120·ii, 120·jj, and starts white with a black pen |
| Handlers.NewButton | buttons/color.hh:27-28 | a new button registers its one tile with source offset (0, 0) and leaves the other tiles alone |
| Handlers.CanvasBlockScenario | screen.hh:244-249 | on a canvas at tiles (1, 0)–(15, 8), a press at (130, 5) reaches the canvas at (10, 5), and a drag there paints (13, 5), (12, 5), (11, 5) |
| SnapShots.DateOperators | snapshots.hh:39-65 | == and != are equality of dates; <, <=, >, >= are the lexicographic order on (year, month, day) |
| SnapShots.TimeStampOperators | snapshots.hh:109-135 | time stamps compare by date, then by (hour, minute); equality is equality of all fields |
| SnapShots.TsLessStrictTotal | snapshots.hh:109-135 | < on time stamps is irreflexive, transitive and total on distinct stamps |
| SnapShots.OfStringsRoundTrip | snapshots.hh:101-103 | building a time stamp from the decimal strings of its fields gives it back |
| SnapShots.DateQueryRoundTrip | snapshots.hh:70-73 | parsing a date's query string gives the date back |
| SnapShots.TimeStampQueryRoundTrip | snapshots.hh:137-140 | a time stamp's query extends its date's query, and parsing it gives the time stamp back |
| SnapShots.FieldRendering | snapshots.cc:88-96 | a field printed zero-padded to its width has exactly that many digits and reads back as the field |
| SnapShots.FileNameRoundTrip | snapshots.cc:28 | the file name of a time stamp that fits the fields' widths matches the snapshot pattern and parses back to that time stamp |
| SnapShots.ParsedFileNameRendersBack | snapshots.cc:28 | a name the pattern accepts is exactly the file name of the time stamp it parses to |
| SnapShots.Find | snapshots.cc:40-44 | the search on the sorted stamps answers membership |
| SnapShots.Exists | snapshots.cc:40-44 | exists(t) holds exactly when t is in the set |
| SnapShots.Insert | snapshots.cc:47-55 | inserting a new stamp keeps the sequence strictly ascending and adds exactly that stamp |
| SnapShots.Scan | snapshots.cc:26-37 | the set built from a directory listing is valid and holds exactly the stamps of the listed names that match the pattern |
| SnapShots.NewSnapShot | snapshots.cc:47-55 | it fails exactly when the current minute already has a snapshot; otherwise it adds that minute and returns its file name |
| SnapShots.TimeStamps | snapshots.cc:58-66 | all stamps, strictly ascending |
| SnapShots.LowerBound | snapshots.cc:69-75 | the first position whose stamp is not below the key |
| SnapShots.UpperBound | snapshots.cc:69-75 | the first position whose stamp is above the key |
| SnapShots.TimeStampsOn | snapshots.cc:69-75 | strictly ascending, the stored stamps between 00:00 and 23:59 of the given date |
| SnapShots.TimeStampsOnIsDay | snapshots.cc:69-75 | a stamp lies in that range exactly when it is stored, on that date, and its (hour, minute) lies lexicographically between (0, 0) and (23, 59) |
| SnapShots.FileNameIsCompose | snapshots.cc:78-81 | the file name is "snapshot-", the five zero-padded fields separated as the pattern expects, and ".png" |
| Decimal.PadZero | snapshots.cc:88-96 | padding keeps the text at its end and fills up to the width with '0' |
| Decimal.PaddedRoundTrip | snapshots.cc:88-96 | a zero-padded non-negative number reads back as itself |
| Decimal.ToStringRoundTrip | snapshots.hh:101-103 | atoi reads back what to_string printed, negative numbers included |
| Decimal.DigitsOfValue | snapshots.cc:28 | a group of digits, read and printed back zero-padded to its length, is the same group |
| Decimal.ToStringAlphabet | snapshots.cc:88-96 | to_string prints digits and at most a leading minus sign |
| Text.SplitJoin | snapshots.hh:70-73 | splitting the joined fields at '&' gives the fields back when none contains '&' |
| Cursor.MaxLength | cursor.cc:17-18 | the width before rounding is the length of the longest line |
| Cursor.RoundUp8 | cursor.cc:20 | the width is rounded up to the next multiple of 8 |
| Cursor.Width | cursor.cc:15-21 | the cursor width is the smallest multiple of 8 at least as long as every line |
| Cursor.BitmapPixel | cursor.cc:30-41 | bit 7 − (col mod 8) of byte row·bytesPerLine + col / 8 is set exactly when the character at (row, col) sets that plane; cells beyond the line's end stay clear |
| Cursor.CellsContents | cursor.cc:27-42 | the scan visits every character of every line exactly once, in row-major order |
| Cursor.ScanOk | cursor.cc:44-82 | the scan succeeds exactly when every character is known and there is at most one hot spot; the hot spot is that character's position, or the default when there is none |
| Cursor.ScanError | cursor.cc:64-82 | a failing scan stops at the first offending character: an unknown character, or a second hot spot |
| Cursor.LoadCursorOk | cursor.cc:44-82 | loading succeeds exactly when every character is one of "xX.:^ " and at most one is a hot-spot character |
| Cursor.LoadCursorShape | cursor.cc:15-23 | a loaded cursor is the rounded width by the number of lines, with a data and a mask of height · width / 8 bytes, and its hot spot is the hot character or (0, 0) |
| Cursor.LoadCursorPixels | cursor.cc:44-62 | 'x'/'X' set both the data and the mask bit, '.'/':' only the mask bit, ' '/'^' neither |
| Cursor.LoadCursorError | cursor.cc:64-82 | a failed load names the first unknown character in reading order, or reports multiple hot spots at the first second hot-spot character |
| Cursor.LoadCursor | cursor.cc:13-95 | a loaded cursor has one row per line, a width that is the longest line rounded up to a multiple of 8, and height · width / 8 bytes in each bitmap; which character a failure names is stated by Cursor.LoadCursorError |
| Cursor.StripCommentSkips | cursor.cc:108-110 | a line is dropped exactly when it starts with '#' |
| Cursor.StripCommentPlain | cursor.cc:111 | a line without '#' is kept as it is |
| Cursor.StripCommentCut | cursor.cc:111-112 | a line with '#' is cut at the last space before the '#', or kept whole when there is none |
| Cursor.StripComment | cursor.cc:108-112 | a kept line is a prefix of the line read, and it is shorter only when the line has both a space and a '#' |
| Cursor.StripCommentKeepsComment | cursor.cc:108-112 | "x# tip" keeps its comment and then fails to load on '#'; "x x# tip" becomes "x" |
| Cursor.StripCommentFixedSpec | mycursor.cc:11-13 | the corrected reader drops lines starting with '#', removes the comment and the spaces before it, and leaves lines without '#' alone |
| Cursor.StripCommentFixedExamples | mycursor.cc:11-13 | the corrected reader turns "x# tip" into "x" and "x x# tip" into "x x" |
| Cursor.SplitTerminated | cursor.cc:101-106 | splitting newline-terminated lines at '\n' gives the lines plus the unterminated tail |
| Cursor.ReadLinesRoundTrip | cursor.cc:101-115 | reading newline-terminated comment-free lines gives them back with either comment handling, and an unterminated last line is dropped |
| Cursor.ReadLines | cursor.cc:98-115 | only newline-terminated lines count, so there are fewer lines than newline-separated pieces and none without a newline; each is a prefix of one such piece |
| Cursor.ReadLinesFixedDropsComments | mycursor.cc:11-13 | the corrected reader never passes a '#' to the cursor builder; it reads "x# tip" as the loadable "x", where the reader as written passes the comment on and loading fails |
| Cursor.ArrowRead | mycursor.cc:18-36 | the arrow cursor's text reads back as its 18 lines |
| Cursor.ArrowWidth | mycursor.cc:18-36 | its longest line has 11 characters, so the cursor is 16 pixels wide |
| Cursor.ArrowCursor | mycursor.cc:18-36 | the arrow cursor loads as 16 × 18 with its hot spot at (0, 0) |
| Cursor.ArrowCharacters | mycursor.cc:18-36 | every arrow character is known and the only hot spot is the 'X' at the top left |
| Cursor.EmptyCursor | mycursor.cc:38 | the empty cursor is one transparent 8 × 1 row with its hot spot at (0, 0) |
| Pixels.OffsetsDisjoint | surfacepixels.hh:103-106 | distinct in-range pixels occupy disjoint byte ranges |
| Pixels.OffsetInRow | surfacepixels.hh:103-106 | a pixel whose bytes end within the pitch lies inside its own row's pitch bytes |
| Pixels.ReadWord | surfacepixels.hh:27-31 | a read keeps exactly the word's low bpp bits: no bit above them is set, and the value is at most the read mask |
| Pixels.ReadMaskValue | surfacepixels.hh:27-31 | the read mask is 2^bpp − 1 |
| Pixels.MasksAgree | surfacepixels.hh:27-47 | the read and write masks are the same for 1 ≤ bpp < 32 |
| Pixels.WriteWordBits | surfacepixels.hh:42-47 | a write (`WriteWord`) puts the colour's bits under the write mask in the word and keeps every other bit |
| Pixels.ReadAfterWrite | surfacepixels.hh:27-47 | reading after a write gives the colour's low bpp bits |
| Pixels.WriteWordLastWins | surfacepixels.hh:42-47 | of two writes to one pixel, only the second counts |
| Pixels.WriteWordIdempotent | surfacepixels.hh:42-47 | writing the same colour twice is writing it once |
| Pixels.LoadStore | surfacepixels.hh:45 | storing a 32-bit word little-endian and loading it gives it back, touching only its four bytes |
| Pixels.PackedMasks | surfacepixels.hh:27-47 | for 8, 16 and 24 bpp the masks cover exactly the pixel's low bytes |
| Pixels.WritePixelLocal | surfacepixels.hh:42-47 | writing a pixel whose size is whole bytes changes only that pixel's bytes |
| Pixels.WritePixelThenRead | surfacepixels.hh:27-47 | for 8, 16 and 24 bits per pixel only (whole-byte pixels below 32 bits): reading a written pixel gives the colour's low bits, and writing one pixel leaves every other pixel's value alone |
| Pixels.ApplyBalanced | surfacepixels.hh:50-101 | every constructor, copy, assignment and destructor keeps each surface's lock count equal to its live handles when it must be locked, and zero when it need not be |
| Pixels.Apply | surfacepixels.hh:50-70 | a constructor or copy adds one live handle (a copy on the same surface), an assignment re-points only its own handle, a destructor kills only its own, and surfaces that need no lock keep their counts |
| Pixels.RunBalanced | surfacepixels.hh:50-101 | any sequence of handle operations keeps the lock counts balanced |
| Pixels.AllDestroyedUnlocked | surfacepixels.hh:70 | once every handle is destroyed, no surface is left locked |
| WebServer.Find | webserver.hh:84-86 | the map lookup finds a resource exactly when one is stored under that URL, and returns it |
| WebServer.Add | webserver.hh:105-108 | adding only ever appends one entry at most, and afterwards the URL is registered |
| WebServer.AddKeepsFirst | webserver.hh:105-108 | adding under a URL that is already taken changes nothing, and other URLs are unaffected |
| WebServer.Route | webserver.hh:88-93 | the prefix scan hands on a stored resource and a rest that starts with '/' |
| WebServer.RouteSpec | webserver.hh:88-93 | the prefix scan picks the longest prefix ending before a '/' that names a resource, and fails exactly when there is none |
| WebServer.LookupByPrefix | webserver.hh:82-96 | without an exact match the lookup fails when no prefix matches, and otherwise continues in the longest matching prefix with the rest of the URL; it never tries shorter prefixes |
| WebServer.LookupExact | webserver.hh:84-86 | an exact match wins over any prefix |
| WebServer.Lookup | webserver.hh:82-96 | every answer is a resource registered somewhere in the tree, or a file a directory makes up |
| WebServer.LookupLeaf | webserver.hh:59 | any resource that is not a map or a directory answers only "/", with itself (the intended reading of the line; see Findings) |
| WebServer.LookupAsWritten | webserver.hh:53-59 | as written, the lookup agrees with the model wherever it does not throw, and throws only where the model answers with a leaf of the tree |
| WebServer.LeafSlashThrows | webserver.hh:53-59 | with a string at "/a", the URL "/a/" throws as written, while the model finds the string and answers GET with 200 |
| WebServer.LookupDirectory | webserver.hh:219-228 | a directory answers every URL with the file at directory + url, as an octet stream |
| WebServer.NoBacktracking | webserver.hh:88-93 | with "/a" a directory and "/a/b" a leaf, "/a/b/c" is not found and "/a/x" is the file "d/x" |
| WebServer.MapForwarding | webserver.hh:98-120 | a map handles every method but DELETE as its "/" entry does (or a plain resource when there is none); DELETE and every method on a plain resource give 405 |
| WebServer.RedirectEveryMethod | webserver.hh:301-319 | a redirect answers every method with 302 and a Location header |
| WebServer.HandlerFor | webserver.hh:98-319 | a 200 answers only GET or HEAD and carries one Content-Type header; a 302 carries one Location header; any other status has no header and no body; HEAD never has a body; a file body is only for a GET of a file that opens |
| WebServer.HandlerStatuses | webserver.hh:128-319 | every handler answers 200, 302, 404 or 405; 404 only when a file cannot be opened, and for a file exactly when a GET or HEAD finds that it cannot be opened |
| WebServer.GetRequestHandler | webserver.hh:337-365 | a URL not starting with '/' gets exactly a bare 400; a 200 needs a rooted URL, a root, a resource at the URL and GET or HEAD; a 302 carries a Location header |
| WebServer.GetRequestHandlerSpec | webserver.hh:337-365 | 400 exactly when the URL does not start with '/'; 404 when no resource answers it; otherwise the resource's handler for the method |
| WebServer.MethodNames | webserver.hh:337-365 | exactly GET, HEAD, POST, PUT, PATCH and DELETE are recognised |
| Httpd.AddHeaders | httpd.hh:332-339 | headers are added in order until the first refused one, and the result tells which were added |
| Httpd.Accept | httpd.hh:573-583 | a chunk creates its field if needed, appends its data to the field's data, always accepts, and changes no other field |
| Httpd.Feed | httpd.hh:573-583 | feeding chunks never removes a field and leaves a field for every chunk's key |
| Httpd.FeedSpec | httpd.hh:573-583 | after a sequence of chunks, a field exists exactly when it existed or a chunk named it; its data is the old data followed by its chunks' data in order; its file name, type and encoding come from its first chunk, or stay as they were |
| Httpd.FieldAfterUpload | httpd.hh:599-603 | after an upload into empty fields, a field is there exactly when a chunk named it, with the first chunk's metadata and all its data |
| Httpd.FeedAppend | httpd.hh:573-583 | feeding two uploads in turn is feeding their concatenation |
| Httpd.PostCall | httpd.hh:587-594 | a non-empty upload is consumed in full and answers yes; the empty upload that ends the request gives the completion's answer on the collected fields |
| Httpd.PostUploadsFeed | httpd.hh:587-594 | the completion sees the fields of all uploads of the request, in order |
| Httpd.AccessHandler | httpd.hh:655-672 | the first call of a request creates its handler and answers whether there was one; later calls go to that handler with their upload |
| Httpd.RequestCompleted | httpd.hh:674-679 | completing a request releases its handler |
| Httpd.Serve | httpd.hh:655-672 | a connection with a handler answers every upload and keeps its handler |
| Httpd.PostConnection | httpd.hh:655-672 | serving a POST fills the fields with all its uploads in order and accepts every upload |
| Httpd.PostServe | httpd.hh:587-594 | the fields a POST connection ends with are those the POST handler collects |
| Png.ReadImageRows | png.hh:104-111 | read_image allocates pitch · height bytes and points row i at row height − 1 − i when flipped, at row i otherwise |
| Png.WriteImageRows | png.hh:165-170 | write_image points its rows the same way |
| Png.Rows | png.hh:104-109 | the table has one entry per image row; RowsFit and RowsPermutation say where each entry points |
| Png.ReadWriteAgree | png.hh:104-170 | reading and writing with the same flag use the same row table, so an image written flipped reads back flipped the same way |
| Png.RowsFit | png.hh:104-111 | every row lies inside the pitch · height buffer |
| Png.RowsPermutation | png.hh:106-109 | the flipped table is the unflipped one read through an involution, and with a non-zero pitch each row appears once |
| Png.FlipReverses | png.hh:106-109 | the flipped table is the unflipped one reversed |
| Embed.Nibbles | tools/embed.cc:36 | although bytes of 128 and above are negative as char, the shift and mask pick the byte's true high and low hex digits |
| Embed.Token | tools/embed.cc:36 | every byte is written as six characters |
| Embed.ReadsSpec | tools/embed.cc:29-38 | the loop reads the file in order, 32 bytes per line, ending with one short (possibly empty) read: n / 32 + 1 lines |
| Embed.Reads | tools/embed.cc:29-38 | every read but the last is a full 32 bytes and the last one is short, possibly empty |
| Embed.Execute | tools/embed.cc:6-42 | without exactly three arguments, or when the binary cannot be opened, the tool fails with status 1 and writes nothing; otherwise it succeeds, writes to the third argument's path and prints no diagnostics |
| Embed.TokensRoundTrip | tools/embed.cc:28-36 | the tokens of a line read back as its bytes |
| Embed.LinesRoundTrip | tools/embed.cc:29-38 | the data block reads back as the concatenation of the passes |
| Embed.EmbedRoundTrip | tools/embed.cc:19-42 | the output is the header, the data block and the footer, and the hex literals in between read back as the input file byte for byte |

## Left out

- SDL itself: window and renderer creation, textures, `SDL_PollEvent`, `SDL_Delay` and rendering. They become actions in the loop's trace (`Composite`, `Delay`, `Free`, lambda runs).
- Finger events: the float-to-pixel conversion `tfinger.x * width()` is not modelled. A finger gesture enters the model already converted to integers.
- texture.hh and surface.hh are not part of this model, beyond the canvas operations they perform. Blits and fills are recorded as operations, not rendered.
- Handlers.SetColor: the per-pixel pen colouring from the pen mask in `setColor` is not modelled, because it is SDL pixel-format arithmetic. Only the colour is recorded.
- libpng calls in png.hh, apart from the row tables: encoding and decoding are not modelled.
- Pixels.ReadMaskValue: requires bpp < 32, because `Uint32(1) << 32` is undefined behaviour in C++ and the model does not give it a value.
- Pixels: memory is modelled little-endian, as on the platforms the program targets.
- Httpd: libmicrohttpd internals are not modelled. The POST processor's parser, header acceptance and the connection queue are parameters (`parse`, `accepts`, the upload sequence).
- Httpd: `Response::addHeader` failures inside `makeRedirect` and `makeContentResponse` are ignored by the source and are not modelled.
- Httpd: the accept policy and the daemon's start and stop are not modelled.
- WebServer: file I/O is not modelled. Whether a file can be opened is the `canOpen` parameter, and reply bodies name their source (`FileContents`, `Memory`, `Text`) rather than holding bytes.
- WebServer.LookupLeaf: the model answers "/" on a leaf resource with the resource itself, and `WebServer.Lookup` and `WebServer.GetRequestHandler` build on that. In the source, `Resource` inherits `std::enable_shared_from_this` protected (webserver.hh:53-54). So `shared_from_this()` at webserver.hh:59 throws `std::bad_weak_ptr`, and nothing on the request path catches it. `WebServer.LookupAsWritten` models that throw, and Findings lists it.
- WebServer: the content generator of `DynamicStringResource` is outside the model. Its body is `Generated`.
- SnapShots: the clock (`localtime`), the mutex and PNG saving are not modelled. "Now" and whether saving succeeds are parameters of the handlers.
- SnapShots.Scan: the directory listing is a sequence of names, so its order is whatever the caller supplies. The result does not depend on it.
- Cursor: the messages on `std::cerr` and `exit( 1 )` become the error values of `LoadCursor`.
- Cursor.LoadCursor: the text is taken one `char` per byte, as `std::string` holds it, so line widths count bytes. Characters from 256 up, and multi-byte UTF-8 sequences, are outside the model. `CharError` classifies a character by its value modulo 256, as `int( c ) & 0xff` does for a byte.
- Embed.Execute: write failures of the output stream are not modelled. With no arguments at all the usage line shows an empty program name, where the source would read `argv[0]`.
- draw.cc: the wiring of screen, canvas, buttons and web server in `main` is not modelled. `Handlers.CanvasBlockScenario` exercises one such layout.
- Integer widths: the model uses unbounded integers where the source uses `int` or `size_t`. This covers `2*abs(dx)` in the stroke, `(m + 7) & ~7`, `atoi` overflow, the pixel offset and `pitch * height`. Overflow is outside the modelled range.

## Findings

| source | as written | input that shows it | evidently intended | confidence | as-written member | corrected member |
|---|---|---|---|---|---|---|
| webserver.hh:53-59 | a leaf resource answers "/" with `shared_from_this()`, but `Resource` inherits `enable_shared_from_this` protected, so no `shared_ptr` registers itself and the call throws `std::bad_weak_ptr` | a map with a string resource at "/a" and a GET for "/a/": the map hands "/" to the string resource, which throws instead of answering | a leaf answers "/" with itself, so "/a/" serves the string with 200 | medium, not executed | WebServer.LeafSlashThrows | WebServer.LookupLeaf |
| cursor.cc:108-112 | a line containing '#' is cut at the last space before the '#' (`rfind(' ', cpos)`), or kept whole when there is no such space | the line "x# tip" is kept whole, and loading then fails with an invalid character '#'; "x x# tip" loses its second 'x' | the comment and only the spaces before it are removed, as the format's description in mycursor.cc:11-13 says | medium, not executed | Cursor.StripCommentKeepsComment | Cursor.StripCommentFixedSpec, Cursor.ReadLinesFixedDropsComments |
