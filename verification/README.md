# Verified model of the Amlogic common frameworks

This project models the parts of the repository that keep state over many calls or rewrite buffers in place, and
proves what they are for. `dafny verify dfyconfig.toml` checks all of it.

| file | what it models |
|---|---|
| `GifModel.dfy` | a decoded GIF, its extension blocks, what a frame does to a canvas, and the reference compositor that draws every frame and disposes of every frame (section 23 of the GIF89a specification) |
| `GifRender.dfy` | the seekable renderer `onGetBitmap` as a function of its state; its refinement of the reference compositor and the exact condition for it |
| `GifRequest.dfy` | frame requests as the Java interface makes them, each with a bitmap of its own; the exact condition for them |
| `GifShared.dfy` | rendering with the painting colour that all decoders share, and when other decoders do not matter |
| `GifPixels.dfy` | drawing, disposal and the reference by column and row, colour and byte |
| `GifTime.dfy` | seeking by time with a 32-bit millisecond counter |
| `GifDecoder.dfy` | the decoder object: bitmaps, pixel loops, scans and the rendering loop, each tied to the functions above |
| `Tokenizer.dfy` | the tokenizer object and its round trip |
| `EdidFilter.dfy` | the file of filtered sinks, what its parser makes of every text, and the deep-colour decision |
| `DisplayConfig.dfy` | the display configuration file: what its lines mean, and which of them decides |
| `DisplayMode.dfy` | the display mode service that reads both files with the tokenizer |
| `ScreenClients.dfy` | the client list of the screen capture: how ids are given out, and when a client replaces another |
| `ScreenManager.dfy` | the capture buffers and who owns them, while other clients come and go |
| `ScreenPictures.dfy` | which pictures raw clients get, and in which order |
| `ScreenHistory.dfy` | what becomes of a captured buffer after any history of joins, starts, stops and leaves |
| `DigManager.dfy` | the worker that reboots a device whose /data is read-only, over many boots |
| `Raster.dfy`, `Tiff2Rgba.dfy` | strips and in-place mirroring |
| `TiffImage.dfy` | a whole image in one buffer: its guard, in-place alpha stripping, and where its strips are |
| `TiffTiles.dfy` | the double loop over the tiles: every pixel is in exactly one of them |
| `ImageCopy.dfy` | the copy into a padded frame buffer |
| `SubtitleClients.dfy` | the client slots of the subtitle server |
| `BestMode.dfy` | the search for the highest HDMI mode |
| `Basics.dfy` | shared: optional values, bytes, substring search |

The objects of the source are classes whose methods update fields and arrays; each method equates the new state
with a function of the old one, and the lemmas are about these functions, over all inputs and all runs.

## Where the code falls short of its purpose

- **GIF rendering.** When a frame with disposal 3 is opaque and covers a frame whose disposal was therefore
  skipped, lines 251-256 save a canvas that was never disposed. For rendering that resumes on one bitmap,
  `GifRender.Safe` says when no such pixel is ever shown: it looks only at rectangles and control blocks.
  `GifRender.SafeIffFaithful` proves that it is exact: a shape is safe if and only if every GIF of that shape is
  shown as the reference shows it, after every history of seeks. `GifRender.ExampleIsShownWrongly` is a GIF of
  three one-pixel frames that is shown wrongly.
- **GIF requests.** The Java interface passes a fresh bitmap for every request (line 352), so it always renders from
  frame 0. That is right under the weaker condition `GifRequest.SafeRequests`, which is again exact
  (`GifRequest.SafeRequestsIffShown`). `GifRequest.ExampleRequestIsWrong` is a GIF of four one-pixel frames whose
  last frame is answered wrongly by the very first request. A request for the frame drawn last takes the early
  return of line 276 with the bitmap not allocated, and yields null.
- **Several decoders.** The painting colour of line 314 is one static variable for all decoders, and only rendering from
  frame 0 sets it. Requests are unaffected (`GifShared.RequestsIgnoreOthers`). Rendering that resumes is what it would
  be without other decoders if and only if those leave the GIF's own colour (`GifShared.HarmlessIff`); the theorems
  about resumed rendering are about a decoder for which that holds.
- **GIF time.** The counter of line 83 wraps. The right frame is selected for every time if and only if all frames
  but the last are over before 2^32 ms (`GifTime.SelectIsExact`).
- **Capture.** `ScreenHistory.OnceAfterHistoryIff` says, for every history of joins, starts, stops and leaves, when an
  accepted buffer is accounted for exactly once: drawing succeeds for a window that is the only client; or a canvas
  client was started last, is still in the list, and drawing fails for none; or none was, and exactly one client that
  is not a window is served. A canvas client that leaves without stopping has every later buffer lost
  (`ScreenHistory.LeftCanvasLosesAll`); one that stops beside a raw client has the next buffer given back twice. In a
  session, a buffer is lost exactly when drawing fails for some window (`ScreenManager.LostIff`). Stopping the canvas
  client leaves the queue and every return possible if and only if there is another client or nothing is lent out
  (`ScreenManager.StopKeepsIff`).
- **Client ids.** The scan of lines 172-177 goes on after the first gap. A new client gets an id of its own if and only
  if the ids have no gap or the number of clients is not an id in use (`ScreenClients.JoinKeepsOthersIff`); otherwise
  it replaces the client of that id. Over all runs this cannot happen if and only if there are never more than two
  clients at once (`ScreenClients.ApartUpToIff`).
- **Reboots.** The bound on plain reboots holds if and only if the maximum is 0, or the device has no A/B updates, its
  /cache is not formatted (the count file is on it), the recovery command can be written, and the count file can be
  read, opened for writing and filled (`DigManager.RebootsBoundedIff`).
- **Strips.** The row count of line 188 is a sum of 32-bit values stored in a signed int. For a whole image it is
  right for every strip if and only if the last strip's start plus the rows per strip is below 2^32 and no strip has
  2^31 rows or more (`Tiff2Rgba.CountsRightIff`); `Tiff2Rgba.NegativeCount` is an input of the second kind.
- **Whole images.** The guard of lines 261-270 refuses exactly the sizes that are empty or whose product does not fit
  32 bits (`TiffImage.RefusedIff`). The place of a strip (lines 326-331) and its size (line 340) are 32-bit products
  too; `TiffImage.PlacesRightIff` is the exact condition for all of them to be right.

## Hypotheses

- GIF: `GifModel.WellFormed`: a screen that is not empty and at least one frame; each frame starts on the screen, has
  a full raster and a usable colour table that its values index, and its three scans over the extension blocks
  agree. A frame with at most one graphic control extension (section 23 of the GIF89a specification) has agreeing
  scans. Bitmap allocations succeed.
- Configuration files: every word that a parser reads is shorter than the token buffer (4096), as `nextToken` demands,
  and the SoC name and UI value are shorter than their fields (64); nothing is asked of remarks. Whether an LCD exists
  does not change while the file is read.
- Capture session: one canvas client and any others; the device does not deliver a buffer it does not have, the client
  gives back only buffers it holds, and no client joins that would replace it.
- Client list: the map is sorted by id, and adding under an id that is present replaces that client.
- Strips and tiles: strips and whole images under the exact conditions above; the last row and column of tiles end before 2^32.
- Best mode: lines are not empty and fit the mode buffer (64).

What comes from outside is a parameter: file contents, property values, what the driver, the TIFF library or the
device answers, and the observations of each round of the worker.

## Model

| member | source | states |
|---|---|---|
| GifModel.PackedFieldIsRead | core/jni/droid_logic_GIFDecode.cpp:193-205 | the bit tests recover the disposal method and the transparency flag from the packed field of the standard |
| GifModel.AtMostOneControlIsCoherent | core/jni/droid_logic_GIFDecode.cpp:150-205 | the three different scans (any block, last block, last transparent block) agree on every frame that obeys section 23 of the GIF89a specification |
| GifModel.SourceInRaster | core/jni/droid_logic_GIFDecode.cpp:104-126 | every pixel of the screen inside a frame's rectangle reads an element of the frame's raster |
| GifModel.OpaqueFrameOverwrites | core/jni/droid_logic_GIFDecode.cpp:224-225 | an opaque frame makes the pixels of its rectangle independent of what was there before |
| GifRender.PreparedIsReady | core/jni/droid_logic_GIFDecode.cpp:221-257 | dirty-region invariant: from a canvas right outside the last frame's rectangle, the disposal step (with its shortcut) gives one that is wrong only where the next opaque frame overwrites it, and a backup that is right or wrong only where it never shows |
| GifRender.RoundTracks | core/jni/droid_logic_GIFDecode.cpp:316-342 | drawing, or skipping a frame that will be cleared, restores the invariant of the loop |
| GifRender.RenderTracks | core/jni/droid_logic_GIFDecode.cpp:316-342 | for a safe GIF the whole loop, started at frame 0 or resumed after any shown frame, ends with the reference canvas of the last frame and a usable backup |
| GifRender.GetBitmapSettles | core/jni/droid_logic_GIFDecode.cpp:259-347 | one call, in each of its ways to start, leaves the reference canvas of the clamped index and the invariant for the next call |
| GifRender.SafeIsFaithful | core/jni/droid_logic_GIFDecode.cpp:259-347 | after every sequence of seeks (forward, backward, repeated, out of range) and renderings, a safe GIF is shown exactly as the compositor without shortcuts shows it |
| GifRender.NothingSavedIsSafe | core/jni/droid_logic_GIFDecode.cpp:232-256 | a GIF in which no disposal-3 frame is opaque and covers a frame with disposal 2 or 3 is safe |
| GifRender.FaultSurfaces | core/jni/droid_logic_GIFDecode.cpp:250-256 | a pixel wrongly saved and not masked is carried by swaps and copies to a frame that is shown wrongly |
| GifRender.UnsafeIsUnfaithful | core/jni/droid_logic_GIFDecode.cpp:232-256 | for every unsafe shape there are pixels and a history for which the bitmap is wrong |
| GifRender.SafeIffFaithful | core/jni/droid_logic_GIFDecode.cpp:232-256 | the condition on rectangles and control blocks is exact: safe if and only if every GIF of that shape is shown faithfully after every history |
| GifRender.ExampleIsShownWrongly | core/jni/droid_logic_GIFDecode.cpp:250-256 | a concrete GIF and three calls after which the bitmap is wrong |
| GifRender.IncrementalEqualsBatch | core/jni/droid_logic_GIFDecode.cpp:280-297 | rendering to an index after any history leaves the same bitmap as rendering to it at once |
| GifRequest.RequestIsReady | core/jni/droid_logic_GIFDecode.cpp:349-369 | a request renders from frame 0 whatever happened before, and only its own frame is drawn if it will be cleared |
| GifRequest.SafeIsSafeForRequests | core/jni/droid_logic_GIFDecode.cpp:349-369 | requests need less of a GIF than resumed rendering does |
| GifRequest.ReadyIsGood | core/jni/droid_logic_GIFDecode.cpp:316-342 | invariant of rendering from frame 0: the canvas is background where nothing can remain, and the backup of a disposal-3 frame is the canvas itself |
| GifRequest.SafeRequestsAreShown | core/jni/droid_logic_GIFDecode.cpp:436-453 | every request for any index yields the reference canvas of the clamped index, except that a request for the frame drawn last yields null |
| GifRequest.SafeRequestsIffShown | core/jni/droid_logic_GIFDecode.cpp:232-256 | the weaker condition for requests is exact over all pixels, histories and indices |
| GifRequest.ExampleRequestIsWrong | core/jni/droid_logic_GIFDecode.cpp:232-256 | a concrete GIF whose first request for its last frame yields a wrong bitmap |
| GifShared.OwnColorIsRight | core/jni/droid_logic_GIFDecode.cpp:314-342 | rendering from frame 0 ignores the colour that is found, and resumed rendering is right with the GIF's own |
| GifShared.RequestsIgnoreOthers | core/jni/droid_logic_GIFDecode.cpp:349-369 | a request is answered the same whatever colour other decoders left |
| GifShared.SameColorIsHarmless | core/jni/droid_logic_GIFDecode.cpp:314-342 | over every run beside decoders that leave the GIF's own colour, the state is that of the decoder alone |
| GifShared.HarmlessIff | core/jni/droid_logic_GIFDecode.cpp:314-342 | other decoders that leave a colour never matter to a GIF if and only if it is the GIF's own |
| GifPixels.DrawnAt | core/jni/droid_logic_GIFDecode.cpp:104-126 | the pixel in column x and row y of a frame gets the red, green and blue of the table entry for the value in column x and row y of the raster, opaque; it keeps its own colour if the value is byte 3 of the last transparent control block |
| GifPixels.NotDrawnAt | core/jni/droid_logic_GIFDecode.cpp:104-126 | a pixel outside the rectangle is not touched, and none is without a usable table |
| GifPixels.FilledAt | core/jni/droid_logic_GIFDecode.cpp:128-148 | exactly the pixels whose column and row lie in the rectangle get the colour |
| GifPixels.CoversIff | core/jni/droid_logic_GIFDecode.cpp:208-219 | the comparison of edges holds if and only if every pixel of the one rectangle lies in the other |
| GifPixels.FirstCanvasIs | core/jni/droid_logic_GIFDecode.cpp:300-314 | the first canvas has the colour of the global table at the background index, or is clear without the table or for a transparent first frame |
| GifPixels.NextCanvasIs | core/jni/droid_logic_GIFDecode.cpp:232-256 | what disposal 2, 3 and any other, read from the bits of the last control block, leave in every pixel |
| GifPixels.SoughtIsShown | core/jni/droid_logic_GIFDecode.cpp:259-347 | for a safe GIF, after any history, seeking an index and rendering shows that frame, or the first or last one for an index out of range |
| GifPixels.RequestedIsAnswered | core/jni/droid_logic_GIFDecode.cpp:349-369 | for a GIF safe for requests, a request for a frame not drawn last yields that frame, or the first or last one for an index out of range |
| GifTime.DelayIsRead | core/jni/droid_logic_GIFDecode.cpp:64-74 | the time is ten times the delay whose low and high byte stand at 1 and 2 in the first control block, and 0 without one |
| GifTime.SelectSpans | core/jni/droid_logic_GIFDecode.cpp:76-91 | unless the counter wraps, the frame selected is the one in whose span of summed delays the time lies |
| GifTime.FoundIff | core/jni/droid_logic_GIFDecode.cpp:83-89 | unless the counter wraps, the scan finds a frame if and only if all of them together last as long as the time |
| GifTime.SavedImageDuration | core/jni/droid_logic_GIFDecode.cpp:64-74 | the loop finds the first control block and its delay in milliseconds |
| GifTime.SelectIsExact | core/jni/droid_logic_GIFDecode.cpp:76-91 | every time selects the least frame that is not over by then, or the last, if and only if the frames before the last are over before the counter wraps |
| GifTime.SelectIsMonotone | core/jni/droid_logic_GIFDecode.cpp:76-91 | up to that limit a later time never selects an earlier frame |
| GifDecoder.CopyLine | core/jni/droid_logic_GIFDecode.cpp:93-102 | exactly the pixels of the line whose value is not transparent change, each to the colour of its own value |
| GifDecoder.BlitNormal | core/jni/droid_logic_GIFDecode.cpp:104-126 | the clipped double loop computes the per-pixel drawing of the model for every rectangle and screen, with every access in bounds |
| GifDecoder.FillRect | core/jni/droid_logic_GIFDecode.cpp:128-148 | exactly the pixels of the clipped rectangle become the colour |
| GifDecoder.DrawFrame | core/jni/droid_logic_GIFDecode.cpp:150-175 | the frame is drawn with its own table or the global one, or not at all if the table is unusable |
| GifDecoder.CheckIfWillBeCleared | core/jni/droid_logic_GIFDecode.cpp:177-191 | true exactly if some control block has disposal 2 or 3 |
| GifDecoder.GetTransparencyAndDisposalMethod | core/jni/droid_logic_GIFDecode.cpp:193-205 | the flags of the last control block |
| GifDecoder.DisposeFrameIfNeeded | core/jni/droid_logic_GIFDecode.cpp:221-257 | fill, swap and save on the two bitmaps compute the disposal step of the model |
| GifDecoder.Decoder.OnGetBitmap | core/jni/droid_logic_GIFDecode.cpp:259-347 | the object's new state (index, both bitmaps) and the shared painting colour are those of the model's rendering with the colour found; false and nothing changed exactly when there is nothing to show |
| GifDecoder.Decoder.OnSetTime | core/jni/droid_logic_GIFDecode.cpp:76-91 | the index selected is the one of the wrapping scan; false exactly if there is no GIF, or the scan found a frame and it is the one drawn last |
| GifDecoder.Decoder.NativeSetCurrFrame | core/jni/droid_logic_GIFDecode.cpp:408-418 | an index in range is taken, any other selects frame 0 |
| GifDecoder.Decoder.NativeGetFrameBitmap | core/jni/droid_logic_GIFDecode.cpp:349-369 | a request with a bitmap of its own computes the request of the model, whatever the shared colour, and leaves the decoder ready for the next |
| Tokenizer.SysTokenizer.NextToken | services/systemcontrol/SysTokenizer.cpp:126-149 | the token buffer holds the zero-terminated token and the cursor is behind it; cursor in the buffer and line number 1 plus the newlines consumed are kept |
| Tokenizer.SysTokenizer.NextLine | services/systemcontrol/SysTokenizer.cpp:151-163 | the cursor is behind the line and the line number counts the newline |
| Tokenizer.SysTokenizer.SkipDelimiters | services/systemcontrol/SysTokenizer.cpp:165-177 | the cursor is behind the delimiters of the line, and the line number stands |
| Tokenizer.TokenIsMaximal | services/systemcontrol/SysTokenizer.cpp:134-140 | a token holds no newline, delimiter or NUL and ends at one or at the end of the text |
| Tokenizer.LineEndsAtNewline | services/systemcontrol/SysTokenizer.cpp:156-162 | the rest of a line ends after its first newline or at the end of the text |
| Tokenizer.WhitespaceIs | services/systemcontrol/SysTokenizer.cpp:38-40 | blank, tab, carriage return and NUL separate tokens, and nothing else does |
| Tokenizer.NewlinesAre | services/systemcontrol/SysTokenizer.cpp:151-163 | the line number counts the newline characters |
| Tokenizer.PrintedIsReadBack | services/systemcontrol/SysTokenizer.cpp:126-177 | any lines of tokens, printed with any delimiters between them, are read back line by line and token by token |
| EdidFilter.RoundReadsLine | services/systemcontrol/DisplayMode.cpp:478-496 | one round of the parsing loop consumes exactly one line and takes exactly its meaning |
| EdidFilter.FileRoundTrip | services/systemcontrol/DisplayMode.cpp:469-500 | a file of entries, each spread over lines and closed by a star line, with remarks and blank lines anywhere, parses to exactly these entries in order, also when the last line has no newline; an unfinished entry adds nothing |
| EdidFilter.EdidJoins | services/systemcontrol/DisplayMode.cpp:489-493 | the EDID of an entry is the concatenation of its pieces in order |
| EdidFilter.EveryTextIsAFile | services/systemcontrol/DisplayMode.cpp:469-500 | every text is such a file, so the parser is described on all of them |
| EdidFilter.FilterEndToEnd | services/systemcontrol/FormatColorDepth.cpp:222-253 | after parsing, a mode is refused against the driver exactly if the colour is not 8-bit and the sink's raw EDID is listed in the file |
| EdidFilter.SamePrefixIsEquality | services/systemcontrol/FormatColorDepth.cpp:226-228 | the bounded comparison is equality for every raw EDID that fits its buffer |
| DisplayService.DisplayMode.ParseFilterEdidConfigFile | services/systemcontrol/DisplayMode.cpp:469-500 | the loop over the tokenizer ends, numbers the parsed entries from 0 over what was listed before, and hands the list on, also when the file cannot be opened; keys 0 to n - 1 stay so over repeated parses |
| EdidFilter.FormatColorDepth.IsFilterEdid | services/systemcontrol/FormatColorDepth.cpp:222-232 | true exactly if some listed entry agrees with the raw EDID |
| EdidFilter.FormatColorDepth.IsModeSupportDeepColorAttr | services/systemcontrol/FormatColorDepth.cpp:239-253 | the answer is the refusal or the driver's, and the driver is asked exactly if the mode is not refused |
| DisplayService.DisplayMode.ParseConfigFile | services/systemcontrol/DisplayMode.cpp:412-468 | the loop over the tokenizer ends, and the settings are those of the file's lines of tokens read in order up to a word that is not a keyword, with the type adapted at the end |
| DisplayService.DisplayMode.ConfigRound | services/systemcontrol/DisplayMode.cpp:420-460 | one round takes the meaning of the tokens of exactly one line and stops at a word that is not a keyword |
| DisplayConfig.LastKeywordDecides | services/systemcontrol/DisplayMode.cpp:427-456 | the last keyword line before the first unknown word alone decides the settings |
| DisplayConfig.PrintedSettingsAreRead | services/systemcontrol/DisplayMode.cpp:420-460 | printed keyword, SoC name and UI value are read back, whatever keyword lines come before and remarks after |
| DisplayConfig.WordsAre | services/systemcontrol/DisplayMode.cpp:427-452 | empty lines and remarks are passed over, and MBOX, TV and MID are the keywords |
| DisplayConfig.DecidingWordsSet | services/systemcontrol/DisplayMode.cpp:431-466 | the settings that the words of the deciding line give: box, tablet or TV, a box without an LCD, and a repeater for a TV used as a box |
| DisplayConfig.PrintedWordsSet | services/systemcontrol/DisplayMode.cpp:412-468 | the same from the text of a printed file |
| DisplayConfig.NoKeywordKeeps | services/systemcontrol/DisplayMode.cpp:463-466 | without a keyword line the settings stay, except that a TV used as a box becomes a repeater |
| DisplayConfig.LineOfWords | services/systemcontrol/DisplayMode.cpp:430-436 | skipping and reading word by word meets the tokens of the line, and empty words where it ends |
| ScreenClients.ListStaysListed | services/screencontrol/ScreenManager.cpp:140-285 | over every run of joins and leaves, ids are distinct and at most 4, and there is at most one canvas client |
| ScreenClients.JoinKeepsOthersIff | services/screencontrol/ScreenManager.cpp:166-182 | the exact condition under which a new client gets an id of its own and no other client is replaced |
| ScreenClients.CanvasIsReplaced | services/screencontrol/ScreenManager.cpp:171-177 | a run after which a raw client takes the place of the canvas client |
| ScreenClients.ApartUpToIff | services/screencontrol/ScreenManager.cpp:166-182 | over all runs of joins and leaves with a bounded number of clients at once, no client is ever replaced if and only if the bound is at most two |
| ScreenClients.FindNewId | services/screencontrol/ScreenManager.cpp:166-182 | the scan finds the next id without gaps, and the number of clients with one |
| ScreenManager.Manager.Init | services/screencontrol/ScreenManager.cpp:140-272 | a client joins unless the list is full or it would be a second canvas client |
| ScreenManager.Manager.Uninit | services/screencontrol/ScreenManager.cpp:274-285 | exactly the client of that id leaves the list |
| ScreenManager.Manager.DataCallBack | services/screencontrol/ScreenManager.cpp:599-714 | the two passes over the clients queue, copy and give back as the step of the model, for every client list and wherever drawing on the window fails |
| ScreenManager.Manager.ReadBuffer | services/screencontrol/ScreenManager.cpp:504-572 | the oldest queued buffer or picture is delivered to its kind of client |
| ScreenManager.Manager.FreeBuffer | services/screencontrol/ScreenManager.cpp:574-597 | a canvas client's buffer is given back if the capture is started |
| ScreenManager.Manager.Stop | services/screencontrol/ScreenManager.cpp:448-480 | the last client's stop drops the queue, and each kind of client leaves its own trace |
| ScreenManager.Manager.Reset | services/screencontrol/ScreenManager.cpp:716-751 | a started capture is stopped and its queue dropped without giving buffers back |
| ScreenManager.RunKeepsLedger | services/screencontrol/ScreenManager.cpp:504-714 | the ledger of a session is kept by every delivery, read and return, and by joins, reads, returns, starts, stops and leaves of other clients |
| ScreenManager.SessionLedger | services/screencontrol/ScreenManager.cpp:504-714 | over every session, buffers queued for the client are still queued, held or released, and none is out twice; delivery is in order of arrival; the raw queue never exceeds 60 |
| ScreenManager.ReleasedOnce | services/screencontrol/ScreenManager.cpp:586-592 | what is released was lent out until then and is not any more |
| ScreenManager.LostIff | services/screencontrol/ScreenManager.cpp:632-660 | a buffer that passes the guards is lost if and only if drawing fails for some window client, and is queued otherwise |
| ScreenPictures.PicturesInOrder | services/screencontrol/ScreenManager.cpp:549-562 | over every run of deliveries, calls and changes of the list, pictures read and then those queued are the pictures accepted in order of arrival, less what the stop of a raw client drops |
| ScreenPictures.DeliveryQueues | services/screencontrol/ScreenManager.cpp:661-672 | a delivery that passes the guards queues its picture once for each raw client served while fewer than 60 are queued |
| ScreenPictures.DeliveryShows | services/screencontrol/ScreenManager.cpp:632-660 | and draws it once for each window client served |
| ScreenPictures.ReadTakesFront | services/screencontrol/ScreenManager.cpp:504-572 | a raw client of a started capture gets the picture at the front of the queue, which is taken off; no one else gets one |
| ScreenPictures.StartsAndStopsAre | services/screencontrol/ScreenManager.cpp:417-480 | what a start and a stop do to the running capture and to both queues |
| ScreenPictures.NoCanvasStops | services/screencontrol/ScreenManager.cpp:606-616 | a buffer without a canvas in canvas mode has it and every later one ignored |
| ScreenHistory.CanvasExistsIff | services/screencontrol/ScreenManager.cpp:417-419 | over every history, the flag is set if and only if some canvas client started and none has stopped since, whether or not it is still in the list |
| ScreenHistory.OnceAfterHistoryIff | services/screencontrol/ScreenManager.cpp:628-709 | after every history, the exact condition for an accepted buffer to be given back or queued exactly once |
| ScreenHistory.LeftCanvasLosesAll | services/screencontrol/ScreenManager.cpp:661-709 | once a canvas client has left without stopping, an accepted buffer is neither queued nor given back |
| ScreenManager.StopKeepsIff | services/screencontrol/ScreenManager.cpp:448-480 | after every session, a stop keeps the queue and every lent buffer can still be given back if and only if there is another client or nothing is lent out |
| ScreenManager.OtherCallTouchesRaw | services/screencontrol/ScreenManager.cpp:448-480 | no call by another client touches anything but the raw queue while the canvas client is in the list |
| ScreenManager.StopForfeits | services/screencontrol/ScreenManager.cpp:716-751 | after stopping the only client nothing more is given back, whatever is queued or freed |
| ScreenHistory.StoppedCanvasReleasesTwice | services/screencontrol/ScreenManager.cpp:661-680 | a client list for which one buffer is given back twice |
| DigManager.Manager.CheckOnce | services/data_integrity_guard/DigManager.cpp:88-131 | the body of the loop computes the round of the model, with reports, count and power request, whenever during the round someone else asks for one |
| DigManager.Manager.WorkThread | services/data_integrity_guard/DigManager.cpp:86-134 | the loop goes on exactly until a reboot is under way |
| DigManager.Manager.HandleDataRo | services/data_integrity_guard/DigManager.cpp:365-424 | reboot and count, wipe and reset, or report, as the step of the model, also when the count file cannot be read or written |
| DigManager.CountIsBounded | services/data_integrity_guard/DigManager.cpp:395-412 | the stored count stays between 0 and the maximum over every run of boots, whatever is observed |
| DigManager.FailingBootsCycle | services/data_integrity_guard/DigManager.cpp:395-412 | boots that keep finding /data read-only cycle through plain reboots and one wipe, from any count, in closed form |
| DigManager.PlainRebootsThenWipe | services/data_integrity_guard/DigManager.cpp:395-412 | from count 0: exactly the maximal number of plain reboots, then one wipe request |
| DigManager.PlainRebootsAreCounted | services/data_integrity_guard/DigManager.cpp:395-412 | in every run without a completed boot or a wipe, plain reboots do not exceed what the maximum leaves |
| DigManager.CompletedBootResets | services/data_integrity_guard/DigManager.cpp:88-98 | a boot that completes ends with count 0, if the count file could be opened then, and no reboot of its own |
| DigManager.AbNeverRecovers | services/data_integrity_guard/DigManager.cpp:300-308 | a device with A/B updates is never sent to recovery |
| DigManager.UnboundedOtherwise | services/data_integrity_guard/DigManager.cpp:341-412 | with A/B updates, a /cache formatted in every boot, a recovery command that cannot be written, or a count file that cannot be read or written, there are as many plain reboots as boots |
| DigManager.RebootsBoundedIff | services/data_integrity_guard/DigManager.cpp:341-412 | the exact condition of the bound on plain reboots: over all runs whose storage fails at most in the given ways |
| DigManager.RoundReports | services/data_integrity_guard/DigManager.cpp:88-124 | which reports a round sends: the failed mount on completion, and from then on a read-only /data and a changed system file, unless a reboot is under way |
| DigManager.CompletedBootReports | services/data_integrity_guard/DigManager.cpp:413-422 | over every run of a completed boot, one report for each round with a read-only /data, one for each due round with a changed file, and nothing else |
| DigManager.NothingReportedBefore | services/data_integrity_guard/DigManager.cpp:88-98 | before it completes, a boot reports nothing |
| DigManager.IntervalIs | services/data_integrity_guard/DigManager.cpp:88-98 | the worker sleeps one second between rounds, and sixty once the boot has completed |
| DigManager.CheckedEveryFifth | services/data_integrity_guard/DigManager.cpp:117-124 | the system files are checked in the first round and every fifth after it, and in no other |
| Tiff2Rgba.MirrorRows | services/imageplayer/TIFF2RGBA.cpp:217-226 | the in-place exchange of lines is an exact reversal of the rows, for odd and even counts, and touches nothing behind them |
| Tiff2Rgba.MirrorTwice | services/imageplayer/TIFF2RGBA.cpp:212-215 | reversing what the reader delivered bottom-up restores the rows |
| Tiff2Rgba.MirrorAt | services/imageplayer/TIFF2RGBA.cpp:217-226 | after mirroring n rows of width w, the element at r * w + x is the one that was at (n - 1 - r) * w + x |
| Tiff2Rgba.BottomUpAt | services/imageplayer/TIFF2RGBA.cpp:190-215 | what the library's reader is taken to leave for a strip, element by element: its rows from the bottom up |
| Tiff2Rgba.ConvertStrip | services/imageplayer/TIFF2RGBA.cpp:190-233 | what is written for a strip is the strip's rows of the image from the top down |
| Tiff2Rgba.CvtByStrip | services/imageplayer/TIFF2RGBA.cpp:187-242 | the strips written are numbered in order, have the right number of rows, and join to the image; a failure leaves a front part of it |
| Tiff2Rgba.ConvertTile | services/imageplayer/TIFF2RGBA.cpp:98-124 | a tile is an exact reversal of the rows read for it |
| Tiff2Rgba.RowsToWriteIff | services/imageplayer/TIFF2RGBA.cpp:204-210 | the 32-bit row count of a strip is right if and only if the sum does not wrap and the count fits a signed int |
| Tiff2Rgba.CountsRightIff | services/imageplayer/TIFF2RGBA.cpp:187-210 | the row counts of all strips of an image are right if and only if a condition on its height and the rows per strip holds |
| Tiff2Rgba.NegativeCount | services/imageplayer/TIFF2RGBA.cpp:188-210 | an image whose row count is stored negative |
| TiffTiles.CvtByTile | services/imageplayer/TIFF2RGBA.cpp:90-137 | the tiles written are in order of rows and columns and each holds its part of the image from the top down; all of them without a failure, and otherwise those before the one that failed |
| TiffTiles.ReadsTileAt | services/imageplayer/TIFF2RGBA.cpp:94-107 | what the library's reader is taken to leave for a tile, element by element: its rows from the bottom up |
| TiffTiles.EveryPixelOnce | services/imageplayer/TIFF2RGBA.cpp:90-137 | every pixel of the image lies in exactly one tile, which holds it in its place |
| Raster.WithoutAlphaAt | services/imageplayer/TIFF2RGBA.cpp:303-316 | colour byte c of pixel i, found at 4 * i + c, ends at 3 * i + c |
| TiffImage.StripAlpha | services/imageplayer/TIFF2RGBA.cpp:303-316 | in one buffer, the colour bytes end in order at the front, none overwritten before it was moved, and the rest stays |
| TiffImage.RefusedIff | services/imageplayer/TIFF2RGBA.cpp:261-270 | the guard on the wrapped product refuses exactly the empty sizes and those whose product does not fit 32 bits |
| TiffImage.PlacesRightIff | services/imageplayer/TIFF2RGBA.cpp:321-341 | every strip of an image is taken from its place and has its size if and only if a condition on the sizes holds |
| TiffImage.CvtWholeImage | services/imageplayer/TIFF2RGBA.cpp:253-348 | a refused or unreadable image writes nothing; otherwise the strips written join to the image with or without alpha, all of it unless one could not be written |
| ImageCopy.CopyRgb | services/imageplayer/ImagePlayerProcessData.cpp:40-50 | byte c of pixel (x, y) lands at y * bp + 3 * x + c, padding and lines below are untouched |
| ImageCopy.CopyRgba | services/imageplayer/ImagePlayerProcessData.cpp:51-65 | the same for four-byte pixels without their alpha |
| ImageCopy.CopyDataToMmapBuf | services/imageplayer/ImagePlayerProcessData.cpp:19-72 | every write is inside the mapped buffer; an unknown format writes nothing |
| ImageCopy.FramedAt | services/imageplayer/ImagePlayerProcessData.cpp:29-50 | colour byte c of the pixel in column x and row y is at y * bp + 3 * x + c, with bp the width rounded up to 32, times 3 |
| ImageCopy.PaddedAt | services/imageplayer/ImagePlayerProcessData.cpp:29-50 | the padding of every line is as before |
| ImageCopy.FramedIsUnique | services/imageplayer/ImagePlayerProcessData.cpp:29-66 | what is stated about the copy determines every byte of the frame |
| ImageCopy.FormatsAgree | services/imageplayer/ImagePlayerProcessData.cpp:39-65 | both formats give the same frame for the same pixels |
| SubtitleClients.FirstFreeIs | services/subtiltleserver/SubtitleServerHal.cpp:489-503 | a new client goes to the least slot without a client, or behind the last |
| SubtitleClients.Server.SetCallback | services/subtiltleserver/SubtitleServerHal.cpp:485-515 | the search takes the first slot without a client or a new one, and the map's keys stay 0 to n - 1 |
| SubtitleClients.Server.SendEvent | services/subtiltleserver/SubtitleServerHal.cpp:60-74 | the live clients are notified in the order of their slots |
| SubtitleClients.Server.HandleServiceDeath | services/subtiltleserver/SubtitleServerHal.cpp:517-521 | the slot is emptied and kept |
| SubtitleClients.SlotsArePeak | services/subtiltleserver/SubtitleServerHal.cpp:485-521 | over every run, the number of slots is the greatest number of clients alive at once |
| SubtitleClients.LiveSlotsAreKept | services/subtiltleserver/SubtitleServerHal.cpp:489-503 | a live client's slot is not reassigned, and a new client gets one of its own |
| SubtitleClients.NotifiedOnce | services/subtiltleserver/SubtitleServerHal.cpp:67-73 | an event reaches a client once for every slot it is alive in |
| BestMode.GetHighestHdmiMode | services/systemcontrol/DisplayMode.cpp:940-1016 | the mode is the default or an allowed advertised mode of maximal value, the first of these; a sole VESA line is returned as it is |
| BestMode.ResolveResolutionValue | services/systemcontrol/DisplayMode.cpp:1018-1047 | the least index in the table of preference, or -1 for a mode that is unknown or not in it |
| BestMode.ValueIs | services/systemcontrol/DisplayMode.cpp:1018-1047 | the value of a known mode is its first place in the table for resolution or, if the frame rate is preferred, in the other; -1 if and only if it is unknown or not in that table |
| BestMode.BestStandsLast | services/systemcontrol/DisplayMode.cpp:952-981 | the best mode is 480p60hz or an advertised usable one behind it, and no usable one stands behind the best in the table |
| BestMode.SoleVesaIs | services/systemcontrol/DisplayMode.cpp:984-1014 | which sole line is returned as it is |
| BestMode.LinesAre | services/systemcontrol/DisplayMode.cpp:952-959 | the lines are the texts ended by newlines, in order |
| BestMode.BestIsUnique | services/systemcontrol/DisplayMode.cpp:952-981 | what is stated about the choice determines it |

## Left out

- GifDecoder: failing bitmap allocations, and colour packing: `eraseColor` and `fillRect` are taken to store the same pixel for a colour. This matters only for a GIF whose background is opaque; the clear colour is 0 in every packing.
- GifDecoder: conversion to RGB 565 and Java bitmaps; `DGifSlurp` and the other library calls.
- GifModel: frames whose colour table is unusable are drawn as the code draws them, but are outside the refinement theorems.
- GifRequest: requests and resumed rendering mixed on one decoder, which share the last index and the backup.
- Tokenizer: `open`, `fromContents`, `getLocation`, `peekRemainderOfLine` and `nextChar`; 32-bit line numbers.
- EdidFilter: map entries inserted by indexing a list with gaps.
- ScreenManager.Manager.Init: does not model the sizes, the rates and the window set-up that a client brings; whether drawing on the window then fails is an input of each delivery.
- ScreenManager: device opening and format calls, time stamps, and reads without memory.
- ScreenManager: the raw picture is one value; its size against the reader's buffer is not modelled.
- DigManager: sleeps, broadcasts to the application, mounting and formatting themselves, and checksums.
- TiffTiles: tiles are numbered in the order of the loops; the library's computation of the number is not modelled.
- Tiff2Rgba: buffer sizes beyond 32 bits for strips and tiles, tag copying, byte swapping on big-endian hosts.
- ImageCopy: negative sizes and 32-bit overflow of the buffer size; mapping itself.
- SubtitleClients: failing death links, which are only logged.
- BestMode: the mode tables are parameters, and the property flags are fixed during one search.
- HDCP, Dolby Vision, HDR sequencing, binder forwarding and fixed-table conversions: effects in drivers or nothing to prove.
