# coloring-bot, modelled in Dafny

The model covers the two halves of the coloring bot.

**Drawing side (`drawing.py`).**

- **Segmentation.** An RGBA template is turned into a drawing made of numbered regions:
  - every pixel that is not fully opaque becomes grey;
  - every fully opaque pixel becomes black;
  - a column-major scan flood-fills each grey pixel it meets to white and records that pixel as the seed of the next region.
- **Colouring.** The region drawing is recoloured from the stored colour items. Each item holds a region index and an `"r,g,b"` colour text.
- **Compositing.** The template is pasted over the coloured drawing, using its own alpha as the mask.

**Chat side (`bot-proto.py`).**

- **Classifying the input.** The expect patterns sort the incoming text into three cases:
  - a server PING;
  - a `PRIVMSG` whose text starts with `!`;
  - nothing yet.
- **Dispatching a command.** A command becomes a help reply, a region update or an image update, or it is ignored.

## Files

The modules follow the program's structure:

| File | Contents |
|---|---|
| `geometry.dfy` | points, 4-adjacency, paths and connectivity inside a pixel set |
| `raster.dfy` | `Rgb`/`Rgba` pixels with byte channels, rectangular grids, the ghost view `Pixels` of an `array2` drawing surface |
| `floodfill.dfy` | the flood fill as the imaging library performs it. It fills 4-neighbours, with no border colour and exact colour match. It is an imperative worklist method over the drawing array (`Fill`), proved against the value-level specification `FloodFilled`. |
| `segmentation.dfy` | `get_drawing`. The scan is an imperative loop over the drawing array. The seed list it returns is characterised by four properties: scan-ordered, seeds are non-opaque, each seed comes first in its region, the regions cover all non-opaque pixels. That characterisation is proved to determine the list. |
| `pytext.dfy` | the parts of Python's `int()` on strings and `str.split` that `fill_regions` relies on |
| `colouring.dfy` | `fill_regions`: parsing an item, the method over the drawing array, and the effect of a list of items |
| `rendering.dfy` | the composite and `build_colored_drawing` |
| `ircbot.dfy` | the expect patterns, `expect_list`'s choice of match, the argument patterns and the dispatch |

### Drawing side

- **Flood fill.** `FloodFill.Fill` updates the array in place. It is proved to leave exactly `FloodFilled(old pixels, seed, value)`:
  - a seed outside the image, or a seed that already has the fill colour, changes nothing;
  - otherwise every pixel 4-connected to the seed through pixels of the seed's colour takes the new colour.
- **Segmentation.**
  - `GetDrawing` returns a drawing that is white on non-opaque pixels and black on opaque ones.
  - It also returns a seed list satisfying `IsSeedList`.
  - `SeedListUnique` shows the list is a function of the template alone.
  - `RegionOfPixel` shows every non-opaque pixel lies in the region of exactly one seed.
- **Colouring.** `FillRegions` is the loop of `fill_regions`. Its result is `ApplyItems`, the items applied in order; an item that raises inside the loop has no effect.
  - `FillIsRecolour` shows that a non-black fill from a seed repaints exactly that seed's region. That region is the 4-connected component of non-opaque template pixels.
  - `ColouredRegions` then shows that every region ends up in the colour of the last usable item naming it, or white when there is none.
  - `LastWins` and `DistinctRegionsCommute` give the pairwise laws behind this.
- **Error outcome.** `FillRegions` returns `ok == false` when `fill_regions` raises instead of returning. This happens exactly when the very first item's `Region` cannot be read (`Crashes`). The exception handler formats the last parsed region index, and that name is still unbound at that point.
- **Black fills.** An item whose colour is black (after clamping) paints a region the colour of the outlines. A later fill of that region then runs through the outlines. `ColouredRegions` and the lemmas above are therefore stated for non-black items (`NotBlack`); `FillRegions` itself covers every item.

### Chat side

- **The PRIVMSG pattern.**
  - `IsCut` states what it means for the pattern to match at a position, with any choice of group boundaries.
  - `MatchAt` is the match the backtracking engine reports.
  - `MatchAtSound` and `MatchAtComplete` show that `MatchAt` finds a match whenever one exists. The match it finds has the longest user, command and rest, and every other boundary is forced.
- **Two consequences of the pattern.** The patterns are compiled as bytes with DOTALL.
  - The rest group runs to the last CR LF in the buffer.
  - The user group runs to the last `!` that still leaves a host.
- **Choosing between the two patterns.** `NextEvent` takes the earliest-starting match. When both start at the same position, the PING pattern wins.
- **Dispatch.** `Respond` maps an event to an action, as `bot-proto.py:45-77` does.

## Model

| member | source | states |
|---|---|---|
| Segmentation.MaskPixel | drawing.py:24-26 | the mask pixel is grey (100,100,100) exactly when the template pixel's alpha is below 255 and black exactly when it is 255; all three channels are equal |
| Segmentation.Mask | drawing.py:25-26 | the mask has the template's dimensions |
| Segmentation.HolesFacts | drawing.py:25 | the pixels regions are made of are exactly the in-bounds pixels whose alpha is below 255 |
| FloodFill.FloodFilled | drawing.py:35 | the value-level flood fill: the result has the grid's shape; what each pixel becomes is stated by `FloodFilledAt` |
| FloodFill.Fill | drawing.py:35 | after the fill the surface equals `FloodFilled` of its previous contents |
| FloodFill.FloodFilledAt | drawing.py:35 | pixel by pixel: a pixel takes the fill colour iff it is reached from the seed through pixels of the seed's colour, otherwise it keeps its colour; the grid keeps its shape |
| FloodFill.Spill | drawing.py:35 | the worklist loop recolours a set that contains the seed, is closed under steps through seed-coloured pixels, and lies inside the seed's component |
| Segmentation.ScanStart | drawing.py:25-28 | the mask with an empty seed list satisfies the scan invariant at (0,0) |
| Segmentation.FillIsRegion | drawing.py:34-35 | filling a grey pixel with white during the scan reaches exactly the pixels connected to it through non-opaque pixels |
| Segmentation.ScanFillStep | drawing.py:33-36 | filling a grey pixel white and appending it as a seed preserves the scan invariant at the next row |
| Segmentation.ScanSkipStep | drawing.py:33-34 | a pixel that is not grey is passed over with the invariant preserved |
| Segmentation.ScanNextColumn | drawing.py:31-32 | the end of a column moves the invariant to the top of the next column |
| Segmentation.ScanEnd | drawing.py:31-38 | after the last column the drawing is white on non-opaque and black on opaque pixels and the seeds form a seed list |
| Segmentation.ScanColumn | drawing.py:32-36 | one column of the scan carries the invariant from (x,0) to (x+1,0) |
| Segmentation.GetDrawing | drawing.py:14-38 | returns a fresh drawing of the template's size, white exactly on non-opaque pixels and black elsewhere, and a seed list: scan-ordered, each seed non-opaque and first of its region in scan order, every non-opaque pixel in some seed's region |
| Segmentation.SeedsDistinctRegions | drawing.py:35-36 | no two seeds of the list lie in the same region |
| Segmentation.RegionOfPixel | drawing.py:31-36 | every non-opaque pixel is connected to exactly one seed |
| Segmentation.SeedListUnique | drawing.py:31-36 | two seed lists of one template are equal: region numbering depends on the template only |
| Segmentation.OpaqueHasNoRegions | drawing.py:24-36 | a fully opaque template yields no regions |
| Segmentation.NonEmptyHasRegion | drawing.py:31-36 | a template with a non-opaque pixel yields at least one region |
| Segmentation.SegmentedDrawing | drawing.py:24-38 | the scan's drawing as a value, with the template's dimensions |
| Segmentation.SegmentedDrawingUnique | drawing.py:24-38 | every drawing the scan can leave equals `SegmentedDrawing(t)` |
| PyText.TrimStart | drawing.py:68 | the result is a suffix, does not start with the whitespace `int()` skips (the six ASCII whitespace characters), and only such whitespace was removed |
| PyText.TrimEnd | drawing.py:68 | the result is a prefix, does not end with the whitespace `int()` skips, and only such whitespace was removed |
| PyText.ParseDecimalString | drawing.py:68 | `int(str(n)) == n` for every integer n |
| PyText.ParseInt | drawing.py:68 | `int()` on a string: the numeral left after stripping `int()`'s whitespace, or failure; no contract of its own, its properties are the rows below |
| PyText.ParseIgnoresPadding | drawing.py:68 | padding a string with the six ASCII whitespace characters `int()` skips does not change what `int()` returns |
| PyText.ParseRejectsStray | drawing.py:68 | a string led by a character that is neither `int()`'s whitespace, a sign nor a digit makes `int()` fail; this includes 0x1C, which `str.isspace` counts as whitespace |
| PyText.ParsedHasDigit | drawing.py:68 | a string `int()` accepts contains a digit |
| PyText.Split | drawing.py:70 | `str.split` with a separator always yields at least one piece |
| PyText.JoinSplit | drawing.py:70 | joining the pieces of `split(',')` with ',' gives the string back |
| PyText.SplitPieces | drawing.py:70 | `split(',')` yields one piece more than there are commas, none containing a comma |
| PyText.SplitJoin | drawing.py:70 | splitting the join of comma-free pieces gives the pieces back |
| Colouring.RegionIndex | drawing.py:68 | a numeric Region is used as is, a missing one fails, a string one goes through `int()` |
| Colouring.ParseColour | drawing.py:70-71 | a colour is produced only from a string that splits into exactly three pieces |
| Colouring.ParseColourText | drawing.py:70-71 | every triple written as "r,g,b" parses back to itself |
| Colouring.ColourNeedsTwoCommas | drawing.py:70 | a colour text without exactly two commas is rejected |
| Colouring.Ink | drawing.py:70-72 | the fill colour of a Color attribute: `ParseColour` then `InkOf`; no contract of its own, stated by `InkOf` and `InkOfColourText` |
| Colouring.Clamp | drawing.py:72 | a component inside 0..255 is kept, one below becomes 0, one above becomes 255 |
| Colouring.InkOf | drawing.py:72 | the fill succeeds iff every component is within the C int range; components already in 0..255 give exactly that colour |
| Colouring.InkOfColourText | drawing.py:70-72 | the "r,g,b" text of a colour paints exactly that colour |
| Colouring.ItemFill | drawing.py:68-71 | an item acts iff its region index parses and lies in 0..count-1 and its colour parses and converts; the region and colour it acts with are those parsed |
| Colouring.ApplyItem | drawing.py:67-72 | one item's effect keeps the drawing's shape |
| Colouring.ApplyItems | drawing.py:66-72 | the items' effects in order keep the drawing's shape |
| Colouring.Crashes | drawing.py:66-74 | the condition under which `fill_regions` raises: the first item's Region is unusable, so the handler at `drawing.py:74` formats a region index that was never bound; a definition, used by `FillRegions` and `BuildColouredDrawing` |
| Colouring.FillRegions | drawing.py:56-74 | returns false iff the first item's Region is unusable (`fill_regions` raises), leaving the drawing untouched; otherwise the drawing becomes `ApplyItems` of its old contents |
| Colouring.SegmentedIsUniform | drawing.py:31-38 | the scan's drawing has one colour per region, black exactly on opaque pixels |
| Colouring.FillIsRecolour | drawing.py:72 | on such a drawing a non-black fill from a region pixel repaints exactly that region and keeps every other pixel |
| Colouring.SameRegion | drawing.py:72 | the component a fill reaches is the seed's region |
| Colouring.RecolourUniform | drawing.py:72 | repainting a region with a non-black colour keeps one colour per region and black exactly on opaque pixels |
| Colouring.RecolourAt | drawing.py:72 | a repainted drawing shows the colour on the region and the old pixel elsewhere |
| Colouring.ApplyItemEffect | drawing.py:67-72 | a usable non-black item repaints its seed's region and nothing else; any other item leaves the drawing as it was |
| Colouring.ApplyItemAt | drawing.py:67-72 | the same, pixel by pixel |
| Colouring.LastWins | drawing.py:66-72 | of two items for the same region the later decides its colour: applying both equals applying the second |
| Colouring.DistinctRegionsCommute | drawing.py:66-72 | items for different regions can be applied in either order |
| Colouring.RegionColour | drawing.py:66-72 | a region's colour is white or the colour of some usable item naming that region |
| Colouring.ColouredRegions | drawing.py:56-74 | after the items, every pixel of region j shows the colour of the last usable item naming j (white if none), the drawing keeps one colour per region, and opaque pixels stay black |
| Colouring.NoRegionsNoChange | drawing.py:69 | with no regions no item changes the drawing |
| Rendering.Composite | drawing.py:92-96 | the composite has the template's dimensions |
| Rendering.CompositePixel | drawing.py:94-96 | one pixel of the paste with the template's alpha as mask; no contract of its own, stated by `CompositeAt` |
| Rendering.CompositeAt | drawing.py:94-96 | a fully opaque template pixel appears unchanged; under a fully transparent one the drawing pixel appears with alpha 255 |
| Rendering.RenderedPixel | drawing.py:84-96 | under a fully transparent template pixel of region j the output is region j's colour, fully opaque |
| Rendering.OpaqueRendersTemplate | drawing.py:84-96 | a template without a transparent pixel renders as itself whatever the items say |
| Rendering.ReadPixels | drawing.py:92 | reads the drawing surface out as its pixel grid |
| Rendering.BuildColouredDrawing | drawing.py:76-98 | returns the template's seed list, fails exactly when `fill_regions` raises, and otherwise returns the template pasted over `ApplyItems` applied to the segmented drawing |
| IrcBot.RunEnd | bot-proto.py:41 | a greedy `\S+`/`\s+` run: it ends at the end of the buffer or at the first character outside the class |
| IrcBot.MatchAt | bot-proto.py:41 | the PRIVMSG match the backtracking engine reports at a position; no contract of its own, stated by `MatchAtSound` and `MatchAtComplete` |
| IrcBot.MatchAtSound | bot-proto.py:41 | the reported match is a match of the PRIVMSG pattern |
| IrcBot.MatchAtComplete | bot-proto.py:41 | whenever the pattern can match at a position a match is reported there, with the longest user, command and rest of all matches and every other boundary forced |
| IrcBot.MatchHasMark | bot-proto.py:41 | every match contains the ":!" command mark |
| IrcBot.EventAt | bot-proto.py:41-43 | at one position the PING pattern is reported if it matches, else the PRIVMSG match if any |
| IrcBot.FirstMatch | bot-proto.py:43 | the reported position is the earliest at which either pattern matches |
| IrcBot.NextEvent | bot-proto.py:41-43 | the event `expect_list` reports for a buffer: the one at the earliest matching position; stated by `FirstMatch`, `EventAt` and `SilenceIffNoMatch` |
| IrcBot.SilenceIffNoMatch | bot-proto.py:41-49 | the bot keeps waiting exactly when neither pattern matches at any position of the buffer |
| IrcBot.Token | bot-proto.py:63 | a token is reported only after at least one whitespace character, consists of non-space characters and is followed by whitespace or the end |
| IrcBot.TokenComplete | bot-proto.py:63 | whenever `\s+(\S+)` can match, the reported token starts where that match does and is at least as long |
| IrcBot.Respond | bot-proto.py:45-77 | silence and messages to other targets do nothing; a line is sent only for PING or colorhelp, a region update only for "c" and an image update only for "img" on the configured channel |
| IrcBot.PingAnswered | bot-proto.py:41-46 | a buffer starting with the server PING yields the PING event and the reply "PONG :tmi.twitch.tv" |
| IrcBot.PrivmsgRoundTrip | bot-proto.py:41-56 | a chat line built from user, host, target, command and rest splits back into exactly those parts (host without '!', rest not continuing the command) |
| IrcBot.NoMarkNoCommand | bot-proto.py:41 | a buffer without ":!" never yields a command |
| IrcBot.OtherChannelIgnored | bot-proto.py:59 | a command sent to another target does nothing |
| IrcBot.HelpReply | bot-proto.py:60-61 | colorhelp on the channel sends exactly "PRIVMSG <channel> :Commands: !c #RRGGBB X, !img XYZ.png" |
| IrcBot.ColourCommand | bot-proto.py:62-69 | "c" with whitespace, a token, whitespace, a token and anything not continuing it updates that region with that colour text verbatim; found arguments always have that shape (`ColourArgsShape`), so a text without it does nothing |
| IrcBot.ColourArgs | bot-proto.py:63-67 | when the colour and region arguments are found, both are non-empty words without whitespace; `ColourArgsOf` and `ColourArgsShape` tie them to the text both ways |
| IrcBot.ColourArgsOf | bot-proto.py:63-67 | the two argument tokens are exactly the first two whitespace-separated words |
| IrcBot.ColourArgsShape | bot-proto.py:63-67 | conversely, found arguments come from exactly that shape: the text is whitespace, the colour word, whitespace, the region word and text not continuing it |
| IrcBot.TokenAt | bot-proto.py:63 | a whitespace-led token that is followed by whitespace or the end is exactly what the pattern reports |
| IrcBot.WordAt | bot-proto.py:63 | whitespace, a word and text that does not continue it form such a token, and the token reads back as the word |
| IrcBot.ColourArgsAt | bot-proto.py:63-67 | two such tokens in a row are the colour and region arguments |
| IrcBot.ImageCommand | bot-proto.py:70-75 | "img" with a whitespace-led token updates the image with that token; in words: "img" with whitespace, a word and anything not continuing it updates the image with that word; without a token the raised error is swallowed and nothing happens |
| IrcBot.ImageArg | bot-proto.py:71-73 | when an image name is found it is a non-empty word without whitespace |
| IrcBot.ImageArgOf | bot-proto.py:71-73 | whitespace, a word and text that does not continue it give exactly that word as the image name |
| IrcBot.ImageArgShape | bot-proto.py:71-73 | the image name is a non-empty word preceded by whitespace and followed by whitespace or the end |
| IrcBot.UnknownCommandIgnored | bot-proto.py:76-77 | any command other than the three exact, case-sensitive names does nothing |

## Behaviour worth knowing

- **Region pixels.**
  - The comment at `drawing.py:24` says opaque pixels become white.
  - The code on the next line, `drawing.py:25`, does the opposite. Pixels whose alpha is below 255 become grey and are then filled white as region material. Fully opaque pixels become black outlines.
  - The model follows the code.
- **Opacity of the output.**
  - The output is fully opaque only where the template's alpha is 0 or 255.
  - Under a partially transparent template pixel the paste at `drawing.py:96` mixes the alpha channel too.
- **Bot input.**
  - The patterns at `bot-proto.py:41` run over whatever the buffer holds, and `.` matches line feeds.
  - So a command's rest runs to the last CR LF in the buffer. A later line that arrived in the same read is swallowed into it.

## Left out

- **Outside the model:**
  - File, S3 and DynamoDB access: `fetch_regions`, `get_image`, `update_region`, `update_image`, the handler and the command line.
  - The template and the stored items are parameters instead.
  - The two update functions the bot calls are not part of this model; the bot's actions only name them.
- **Unused and dropped:**
  - `maintain_ping` (`bot-proto.py:35-39`) is defined but never called.
  - Connecting, logging in and joining the channel (`bot-proto.py:17-33`) are session set-up over the network.
- **The session loop.** The pexpect session itself is not modelled: reading, the timeout, the `while True` loop and the bytes left in the buffer after a match. `NextEvent` classifies one buffer as it stands when it is searched.
- **Printing and logging** have no effect on the model.
- **Decoding.** Bytes are modelled as characters, and decoding the groups as UTF-8 is left out. A group that is not valid UTF-8 raises inside the handler's `try`, so nothing happens; the model treats every group as text.
- **Non-ASCII input.**
  - Non-ASCII whitespace and digits are left out. Python's `int()` and the text patterns `\s`/`\S` also accept Unicode whitespace, and `int()` accepts Unicode digits.
  - Within ASCII the two rules differ, and the model keeps both. `int()` skips only space, tab, line feed, vertical tab, form feed and carriage return (`IntSpace`). The argument patterns' `\s` is `str.isspace`, which also accepts the separators 0x1C-0x1F (`IsSpace`).
- **Limits.** Python's limit on the number of digits `int()` converts is left out.
- **Partial transparency.** Compositing partially transparent template pixels is the imaging library's arithmetic. It is a parameter (`blend`) of `Composite` and `BuildColouredDrawing`.
- **Pillow behaviour assumed.** The fill colour's conversion follows the imaging library as assumed here:
  - each component must fit a C `int`, otherwise the fill raises;
  - it is then clamped to 0..255.
- **Template format.** Templates of any mode other than RGBA are left out. Modes without four bands raise at `drawing.py:22`.
- **Region values.** A numeric `Region` attribute is taken to be an integer. A fractional stored number, which `int()` would truncate, is not modelled.
- **Other Color types.** A `Color` attribute of a type other than string is treated as unusable (the `split` call raises).
- Colouring.ColouredRegions: stated for items that do not paint black. A black item merges its region with the outlines, and the model gives no closed form for the result; `FillRegions` and `ApplyItems` still cover it.
- Colouring.ApplyItems: its own contract states only the shape; what it computes is stated by `ApplyItemEffect`, `LastWins`, `DistinctRegionsCommute` and `ColouredRegions`.
