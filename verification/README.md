# OSXvnc server: regions, update protocol, encoders, DES

This project models the parts of the OSXvnc server that decide what a VNC client gets to
see, and proves what they are for. OSXvnc keeps, for every client, the region of the screen
that has changed and the region the client has asked for; when the two meet it sends the
pixels in the client's pixel format and in one of several encodings (RFC 6143, the Remote
Framebuffer Protocol).

To verify the project: `dafny verify dfyconfig.toml`.

## Layout

- **Regions.** `RegionForm` says what the y-x-banded form is and that it is unique;
  `RegionBuild` how a canonical array grows band by band; `Regions` is the record with its
  operations, the destination being free to be a source; `RegionLaws` has the laws of sets
  as they hold between records; `RegionQueries` holds the queries; `RegionSeams` says what
  becomes of the form when two arrays are laid end to end; `BoxSort`, `BoxTally` and
  `RegionValidate` append, sort, scatter and merge arbitrary rectangles.
- **The update protocol.** `UpdateProtocol` is a state machine of the framebuffer, the screen
  callback, the request reader and the sender, for any number of clients; `ClientRecord`
  carries its steps out on region records; `UpdateDelivery` shows that the messages of the
  encoders are runs of it.
- **Encoders.** `Bytes`, `Images` and `UpdateBuffer` are shared. `Subrects` is the greedy
  search for subrectangles; `Rre`, `TileColours`, `HextileFormat` and `Hextile` encode with
  it. `Rectangles`, `Senders` and `FramebufferUpdate` put rectangles into whole messages. For
  ZRLE there are `ZrlePalette`, `ZrleFormat`, `Zrle`, `ZrleRect` and, for the form of the
  pixels, `ZrleChoice` with `Bits`; for Zlib `ZlibLines`. For Tight, `TightPalette`,
  `TightFill`, `TightBuffer`, `TightGradient`, `PixelFields`,
  `TightGradientFields` and `TightData` are the conversions in place; `TightFormat` is the
  decoder and `TightWays` what each way of sending decodes to; `TightLevels`, `TightRect`,
  `TightWire`, `TightSplit` and `TightUpdate` send a rectangle, a run of them, any rectangle
  of the screen, and a whole message. Every decoder is a function of the bytes alone, written
  from the standard or, for CoRRE and Tight, from `rfbproto.h` and the code.
- **DES.** `DesTables`, `Des`, `KeyRegister` and `VncAuth` are the code. `Fips46` is the
  standard, on sequences of bits, and `DesStandard` shows that the two agree: `DesBoxes` and
  `DesTargets` compare the tables, `DesRounds` a round, `DesPermutations` the exchanges of
  bits and `DesKeys` the key schedule, all with `WordBits`. `KeyHalves` carries the key
  schedule out on words, and `FixedKeyWords`, `WorkedRounds` and `LostPassword` work out one
  password with it.
- **Pixel translation.** `Translation`.

`Basics` holds arithmetic, and `WireLiterals` examples of what goes on the wire, byte by byte.

## Main results

1. For any two valid regions the union, intersection and difference are valid, that is
   canonical with exact extents, and hold exactly the points they should, even when the
   destination is a source. The canonical form is unique, so equal point sets have equal
   records, and the laws of sets hold between records.
2. `miRegionValidate` gives the union of all that was appended, and its overlap flag is
   exact. When an append keeps the canonical form is decided by a test on the two lists of
   rectangles.
3. In every run of the protocol no damage is lost and no sender sleeps on an update it could
   deliver; one that does not sleep can always go on. What the code sends for an update is a run of the protocol in which each point of
   what was modified and requested goes out once, however its rectangles are interleaved with
   changes of the framebuffer and with the steps of all other clients. Updates keep to the
   screen if and only if reports and requests do.
4. A framebuffer update in Raw, RRE, CoRRE, Hextile or Tight gives the client, at the points
   of every box of the region, what was on the screen when that box was sent, and leaves the
   rest alone, if and only if the number of rectangles fits its header or, in Tight, is not
   known beforehand.
5. Hextile decodes to the pixels it was made from, for every rectangle. So does Tight: its
   recursive split covers every rectangle exactly, and its palettes, bit packing and gradient
   filter, all in place, are undone by a decoder that keeps the four zlib streams; only bits
   of a pixel that belong to no colour can be lost, in the three-byte form and under the
   gradient filter. ZRLE decodes, for every rectangle, to each pixel cut to the bytes that are
   sent of it; which formats keep all their colours is decided exactly. The gradient filter
   predicts by the nearest sample there is; ZRLE packs into the least width that will do and
   takes no more than raw pixels or plain runs, up to a stated slack; the areas of one colour
   that Tight looks for are the largest of whole tiles, and a rectangle of one colour goes out
   as one.
6. What `d3des.c` computes is the Data Encryption Standard of FIPS 46-3, for every key and
   block and both ways, under the key with the bits of each byte mirrored. Decryption undoes
   encryption, and a stored password is read back as its first eight characters.
7. Translation puts the nearest value to each colour of a pixel into its field of the output,
   and nothing else, for every output format whose fields do not overlap. Three tables agree
   with one for all formats; scaling up and back is exact.

## Where the code does less than it seems to

Each of these is a theorem with the exact condition.

- `miRegionsEqual` tells two empty regions apart when their left-over extents differ
  (`RegionQueries.RegionsEqual`).
- `miRegionAppend` can leave two bands that could be merged. It does so exactly when it puts
  the rectangles in the same rows and the band they complete can be merged with the one above
  or below (`RegionSeams.AppendCanonical`, `RegionValidate.RegionAppend`; an input is
  `RegionValidate.AppendCanLeaveMergeable`). `miRegionValidate` then takes its fast path and
  leaves them (`RegionValidate.AppendAndValidate`, and for any number of appends
  `RegionValidate.UnionOfAll`).
- Nothing clips a request to the screen. A client is sent points off the screen exactly when a
  report or a request that is not incremental has marked them (`UpdateProtocol.RunsOnScreen`,
  `ClientRecord.ClientRec.UpdateRequest`, `ClientRecord.FirstUpdate`; an input is
  `ClientRecord.OffTheScreen`). To the right of the screen they show the next row of memory
  (`UpdateDelivery.BeyondTheRow`).
- The raw encoder gives up exactly when one line of pixels is longer than the buffer of
  30000 bytes (`Senders.SendRawLines`). RRE and Hextile have no such limit of their own, but
  RRE falls back to raw.
- The header of an update holds the number of rectangles modulo 0x10000. A client that goes by
  it has the right picture exactly when there are at most 0xFFFF; with just 0xFFFF a LastRect
  marker follows that it does not expect, so that it is in step afterwards exactly when there
  are fewer (`FramebufferUpdate.SendFramebufferUpdate`, and for Tight
  `TightUpdate.SendFramebufferUpdate`). A region can have so many
  (`FramebufferUpdate.ManyRects`).
- The three-byte form of ZRLE is chosen without a look at the pixels, so that bits outside of
  their colours are dropped (`ZrleChoice.PaddingIsDropped`). Colours are lost exactly for the
  formats of `ZrleChoice.ColoursArrive`: a channel that reaches the highest bit is negative
  when its maximum is shifted, and passes for one that fits below (`ZrleChoice.RedIsLost`).
- The compact length of Tight is right exactly below 2 to the 22
  (`TightData.LengthRoundTrip`).
- The string that `vncEncryptPasswd` returns decrypts to the password exactly when no other
  byte follows a zero byte in the ciphertext (`VncAuth.EncryptPasswdReadsBack`); the password
  of a single t is lost (`LostPassword.PasswordLost`).
- The Tight palette counts the second colour of a rectangle one short
  (`TightFill.TwoStart`); the order of the palette and the background
  of two equally frequent colours depend on it.

## Model

| member | source | states |
|---|---|---|
| `RegionForm.CanonicalUnique` | OSXvnc-server/miregion.c:80-125 | The y-x-banded form is unique: two canonical arrays of boxes that cover the same points are the same array |
| `RegionForm.CanonicalBoxIsMaximal` | OSXvnc-server/miregion.c:80-125 | Every box of a canonical array can be told from the point set alone: it is a longest run of columns over a largest block of equal rows |
| `RegionForm.BandedOrderUnique` | OSXvnc-server/miregion.c:80-125 | The banding leaves no choice of order: two banded arrays with the same boxes are equal |
| `RegionForm.BandSlice` | OSXvnc-server/miregion.c:80-125 | A band decides alone which points of its rows are covered, and its neighbours end above it and start below it |
| `RegionBuild.MergeForm` | OSXvnc-server/miregion.c:446-501 | Stretching the previous band over an equal one below it keeps the form canonical and covers what both bands covered |
| `RegionBuild.AppendForm` | OSXvnc-server/miregion.c:504-511 | A band that cannot be merged upwards may simply be appended: the array stays canonical |
| `RegionBuild.TailForm` | OSXvnc-server/miregion.c:764-789 | When only one source is left, its first band merged or not, the rest of its rectangles can be appended unread and the result is canonical |
| `Regions.CoalesceBands` | OSXvnc-server/miregion.c:446-501 | Two bands of equally many boxes are merged exactly when they touch and hold the same spans; the boxes of the earlier one are stretched and nothing else changes |
| `Regions.Region.Empty` | OSXvnc-server/miregion.c:329-347 | A region made without a rectangle is valid and empty |
| `Regions.Region.FromBox` | OSXvnc-server/miregion.c:329-347 | A region made from a non-empty rectangle is valid, holds that one box and exactly its points |
| `Regions.Region.Copy` | OSXvnc-server/miregion.c:395-420 | The copy is valid and has the rectangles of the source, also onto itself |
| `Regions.Region.OverlapIntersect` | OSXvnc-server/miregion.c:885-921 | Within one band the boxes appended hold the columns in both bands, in banded order |
| `Regions.Region.OverlapUnion` | OSXvnc-server/miregion.c:1014-1065 | Within one band the boxes appended hold the columns in either band, never touching each other; the overlap flag is raised exactly when a column is in both |
| `Regions.Region.OverlapSubtract` | OSXvnc-server/miregion.c:1613-1714 | Within one band the boxes appended hold the columns of the minuend band that the subtrahend band does not hold |
| `Regions.Region.AppendNonO` | OSXvnc-server/miregion.c:531-550 | A band that meets no other is appended with its spans unchanged, clipped to the given rows |
| `Regions.Region.OpWalk` | OSXvnc-server/miregion.c:668-789 | The merge of two canonical arrays, for each of the three overlap functions: the result is canonical and a point is in it exactly when the function says so of the two sources; for the union the overlap flag is exact |
| `Regions.Region.RegionOp` | OSXvnc-server/miregion.c:600-811 | The same for region records, with the destination record allowed to be either source or both; the arrays of boxes are values |
| `Regions.Region.SetExtents` | OSXvnc-server/miregion.c:828-866 | The extents become the smallest box around the rectangles, which do not change |
| `Regions.Region.Intersect` | OSXvnc-server/miregion.c:925-978 | Shortcuts included, the destination becomes a valid region with exactly the points in both operands as they were before, also when it is one of them |
| `Regions.Region.Union` | OSXvnc-server/miregion.c:1068-1139 | Shortcuts included, the destination becomes a valid region with exactly the points in either operand as they were before, also when it is one of them |
| `Regions.Region.Subtract` | OSXvnc-server/miregion.c:1731-1769 | Shortcuts included, the destination becomes a valid region with exactly the points of the minuend not in the subtrahend as they were before, also when it is one of them |
| `Regions.Region.Inverse` | OSXvnc-server/miregion.c:1791-1830 | What a region leaves of a box: exactly the points of the box outside it |
| `Regions.Region.NotEmpty` | OSXvnc-server/miregion.c:2068-2072 | True exactly when some point is in the region |
| `Regions.RepresentationUnique` | OSXvnc-server/miregion.c:216-239 | Two valid regions with the same points, not empty, agree in every field |
| `RegionLaws.PointsDecide` | OSXvnc-server/miregion.c:216-239 | Two valid regions have the same rectangles, and the same extents unless empty, exactly when they hold the same points |
| `RegionLaws.Commutative` | OSXvnc-server/miregion.c:1068-1139 | A union has the same record in either order of its operands |
| `RegionLaws.Absorption` | OSXvnc-server/miregion.c:925-1139 | The intersection of a region with a union it is part of, in place, is the record of the region |
| `RegionLaws.Distributive` | OSXvnc-server/miregion.c:925-1139 | Intersecting with a union and uniting the intersections end in the same record |
| `RegionLaws.DeMorgan` | OSXvnc-server/miregion.c:1068-1830 | What a union leaves of a box has the record of the intersection of what each operand leaves of it |
| `RegionLaws.DifferenceByInverse` | OSXvnc-server/miregion.c:1731-1830 | Subtracting has the record of intersecting with what the subtrahend leaves of the extents |
| `RegionQueries.RegionsEqual` | OSXvnc-server/miregion.c:216-239 | Decides equality of point sets, except that two empty regions must also have the same left-over extents |
| `RegionQueries.PointInRegion` | OSXvnc-server/miregion.c:2035-2065 | True exactly for the points of the region, with a rectangle around the point, although the scan stops at the first box past it |
| `RegionQueries.RectIn` | OSXvnc-server/miregion.c:1849-1936 | OUT exactly when no point of the box is in the region, IN exactly when all are, and PART otherwise |
| `RegionQueries.ScanStops` | OSXvnc-server/miregion.c:1874-1935 | Wherever the scan stops early, what it has seen settles the answer, because of the banding |
| `BoxSort.QuickSortRects` | OSXvnc-server/miregion.c:1253-1308 | In place: the range is sorted by top and left side, it is a rearrangement, and nothing outside it moves |
| `BoxTally.OverlapIsTwice` | OSXvnc-server/miregion.c:1310-1342 | Two boxes of a list share a point exactly when some point is counted twice |
| `BoxTally.MultRearranged` | OSXvnc-server/miregion.c:1253-1308 | How often a point is covered does not depend on the order of the boxes |
| `BoxTally.TallyMerge` | OSXvnc-server/miregion.c:1493-1513 | Uniting two of several regions keeps the account of covered points and of the overlap flag |
| `RegionSeams.CoalescedConcat` | OSXvnc-server/miregion.c:80-125 | Two arrays that meet in different rows have a pair of bands left to merge exactly when one of them has, or the bands where they meet can be merged |
| `RegionSeams.CompletedBand` | OSXvnc-server/miregion.c:1189-1204 | Two arrays that meet in the same rows have nothing left to merge exactly when this holds of what is above the shared band and of what is below it, and the completed band can be merged with neither neighbour |
| `RegionSeams.AppendCanonical` | OSXvnc-server/miregion.c:1189-1204 | Where append keeps the order, the array of two canonical ones is canonical exactly when there is a gap between them or the completed band fits between its neighbours |
| `RegionValidate.RegionAppend` | OSXvnc-server/miregion.c:1163-1242 | The rectangles of the second region are put behind or before those of the first; the record is in order exactly when one of the two tests of the code holds, and a valid record stays valid exactly when a test on the two lists of rectangles, made beforehand, says so |
| `RegionValidate.AppendCanLeaveMergeable` | OSXvnc-server/miregion.c:1189-1204 | An input for which that test fails: the append keeps the order, but two bands are left that could be merged |
| `RegionValidate.PlaceBox` | OSXvnc-server/miregion.c:1418-1473 | The next sorted box goes into the first region that can take it, or starts a new one; regions stay canonical up to their open band and the account of points and overlaps stays right |
| `RegionValidate.Scatter` | OSXvnc-server/miregion.c:1394-1474 | The scatter in place, over the array it reads from: the write position never passes the read position, and the regions together hold what was read |
| `RegionValidate.MergeRegions` | OSXvnc-server/miregion.c:1493-1513 | The binary merge leaves one valid region that holds every point of the boxes scattered; its overlap flag accounts for every pair of boxes that share a point |
| `RegionValidate.Validate` | OSXvnc-server/miregion.c:1343-1518 | The points stay those of the boxes collected, the overlap flag is true exactly when two of them share a point; boxes in order are taken as they are, any others become a valid region |
| `RegionValidate.AppendAndValidate` | OSXvnc-server/miregion.c:1163-1518 | One append and a validation: the union, and a valid region exactly when the rectangles were out of order or the append had kept the form, since the fast path merges nothing |
| `RegionValidate.UnionOfAll` | OSXvnc-server/miregion.c:1157-1518 | Any number of appends and one validation: the points are those of all regions together, the flag is true exactly when two of all their rectangles share a point, and the result is a valid region exactly when the appends lost the order, so that everything was sorted and united, or left no bands to merge |
| `RegionValidate.EachKeepsForm` | OSXvnc-server/miregion.c:1163-1242 | When every append passes the test of RegionAppend, the appends together leave a canonical array in order |
| `RegionValidate.LaterAppendRepairs` | OSXvnc-server/miregion.c:1189-1204 | The converse fails: an input at which one append leaves two bands to merge and the next one makes them different |
| `UpdateProtocol.StepKeepsInv` | OSXvnc-server/main.c:174-420 | Every step of damage, connection, callback, request and sender keeps the invariant for every client |
| `UpdateProtocol.RunsAreSafe` | OSXvnc-server/main.c:174-420 | In every state of every run: a pixel the client shows wrongly is in its modified region, in what is being sent, or not yet reported; a sleeping sender with something deliverable has a signal coming; of an update every point has been sent once or is still to go, which the guard of the sending step says and UpdateDelivery proves of the code |
| `UpdateProtocol.SendingWasTaken` | OSXvnc-server/main.c:387-398 | What is being sent is what was modified and requested when the sender last took it |
| `UpdateProtocol.FinishedUpdateIsComplete` | OSXvnc-server/main.c:387-418 | From the guards of its last two steps: a finished update has sent each point of modified and requested exactly once and no other; that the code takes these steps is UpdateDelivery.DeliveryIsARun |
| `UpdateProtocol.ExactAtRest` | OSXvnc-server/main.c:337-377 | When the sender sleeps, nothing is outstanding and the whole screen is requested, the client shows exactly the framebuffer |
| `UpdateProtocol.SenderGoesOn` | OSXvnc-server/main.c:337-420 | A sender that does not sleep always has a step it can take, a deferring one too, and with such steps reaches the end of its update or its sleep after finitely many |
| `UpdateProtocol.BlockedIsSignalled` | OSXvnc-server/main.c:337-377 | In every state of a run a sender that sleeps on a deliverable update has a signal coming, and that signal wakes it |
| `UpdateProtocol.StepOnScreen` | OSXvnc-server/rfbserver.c:822-834 | No step clips its area: from a state in which only points of the screen are modified, a step leaves such a state exactly when what it marks lies on the screen |
| `UpdateProtocol.RunsOnScreen` | OSXvnc-server/rfbserver.c:822-834 | In every state of a run only points of the screen are modified, if and only if every report and every request that is not incremental keeps to the screen |
| `UpdateProtocol.OffScreenWasMarked` | OSXvnc-server/rfbserver.c:822-834 | A modified point off the screen goes back to a report or a request for that client which held it |
| `UpdateProtocol.AnyAreaCanBeTaken` | OSXvnc-server/rfbserver.c:822-834 | Any area at all, on the screen or not, is taken for an update in some run |
| `ClientRecord.SafeRegionInit` | OSXvnc-server/rfb.h:336-345 | A rectangle without width or height becomes a valid empty region, any other one its own region |
| `ClientRecord.ClientRec.constructor` | OSXvnc-server/rfbserver.c:276-284 | A new client has the whole screen modified and nothing requested, as the protocol starts |
| `ClientRecord.ClientRec.ReportRect` | OSXvnc-server/main.c:187-191 | The callback on the regions is the protocol step: exactly the reported points are added, the other regions keep their value; the modified region stays on the screen exactly when the reported one lies on it |
| `ClientRecord.ClientRec.UpdateRequest` | OSXvnc-server/rfbserver.c:822-834 | The request on the regions is the protocol step; a non-incremental request also marks its area as modified, which then stays on the screen exactly when the rectangle is empty or within it |
| `ClientRecord.ExtentsTell` | OSXvnc-server/miregion.c:828-866 | Whether a region keeps to the screen can be read off its extents |
| `ClientRecord.FirstUpdate` | OSXvnc-server/main.c:387-398 | A new client is sent exactly the rectangle it first asks for, not incrementally, clipped to nothing; it is on the screen exactly when that rectangle is empty or within the screen |
| `ClientRecord.OffTheScreen` | OSXvnc-server/rfbserver.c:822-834 | So on a screen of 10 by 10 pixels the point (20, 20) is part of an update |
| `ClientRecord.ClientRec.UpdateWaits` | OSXvnc-server/main.c:348-373 | The test for something to send, computed by intersection, is that of the protocol |
| `ClientRecord.ClientRec.TakeUpdate` | OSXvnc-server/main.c:387-398 | Taking an update on the regions, with destination and source the same, is the protocol step: modified loses exactly what will be sent |
| `Bytes.RowsRoundTrip` | OSXvnc-server/rfbserver.c:1228-1250 | Rows of pixels are read back from their bytes, with whatever follows left over |
| `UpdateBuffer.UpdateBuf.SendUpdateBuf` | OSXvnc-server/rfbserver.c:1293-1310 | After a successful write the buffer is empty and the client has all that was put before, in order |
| `UpdateBuffer.UpdateBuf.CopyOut` | OSXvnc-server/rre.c:137-154 | The loop that copies an after-buffer of any length through the update buffer sends exactly its bytes |
| `Subrects.FindSubrect` | OSXvnc-server/rre.c:200-232 | The rectangle chosen is of one colour; it is the widest-first or the tallest-first one, whichever is larger, and neither can be extended in its own direction |
| `Subrects.CutOut` | OSXvnc-server/rre.c:199-256 | One greedy choice and marking keeps the state right: subrectangles so far are disjoint and of one colour, painting them reproduces what is marked, and all before the current pixel is done |
| `Subrects.ProgressDone` | OSXvnc-server/rre.c:174-262 | Once nothing but background is left, painting the subrectangles over the background gives back the image and they cover exactly the other pixels |
| `Subrects.ForegroundShrinks` | OSXvnc-server/rre.c:174-262 | Every subrectangle uses up at least one pixel that is not background |
| `Rre.SubrectEncode` | OSXvnc-server/rre.c:174-262 | For RRE and CoRRE: disjoint one-colour subrectangles covering exactly what is not background; failure only if some foreground is left out and one more would exceed the raw size or the buffer; on success no longer than raw unless there are none, and the bytes decode to the image |
| `Rre.SubsRoundTrip` | OSXvnc-server/rre.c:234-247 | A list of subrectangles is decoded by section 7.7.3 of RFC 6143, or the CoRRE form of it, to the image they paint |
| `Senders.GetBgColour` | OSXvnc-server/rre.c:272-313 | The background occurs in the rectangle; with one byte per pixel no colour is more frequent |
| `Senders.SendRawLines` | OSXvnc-server/rfbserver.c:1222-1252 | All lines go out, in as many buffers as they need; the sender gives up exactly when one line is longer than the whole buffer |
| `Senders.SendRectEncodingRaw` | OSXvnc-server/rfbserver.c:1198-1253 | What is sent is one rectangle that decodes to the box as the screen shows it, unless a line is longer than the buffer |
| `Senders.SendSubrects` | OSXvnc-server/rre.c:57-157 | RRE and small CoRRE rectangles: what is sent is one rectangle that decodes to the box as the screen shows it; it is raw only if a list of subrectangles that is not complete would with one more be longer than the pixels, and otherwise no longer than they are |
| `Senders.OneColourIsShort` | OSXvnc-server/rre.c:57-157 | A box of one colour is never sent raw |
| `Senders.SendRectEncodingCoRRE` | OSXvnc-server/corre.c:61-77 | The recursive split sends exactly as many rectangles as the formula of the update header says; each is in CoRRE, or raw for its length, and decodes to what the screen shows, and together they hold every point of the box once and no other |
| `Senders.SplitHeight` | OSXvnc-server/rfbserver.c:1017-1025 | The formula of the header adds up when a box is split in height |
| `Senders.SplitWidth` | OSXvnc-server/rfbserver.c:1017-1025 | The formula of the header adds up when a box is split in width |
| `Senders.SendRectEncodingHextile` | OSXvnc-server/hextile.c:40-73 | What is sent is one rectangle that decodes to the box as the screen shows it |
| `TileColours.TestColours` | OSXvnc-server/hextile.c:293-332 | Solid exactly if one colour, mono exactly if at most two; the background occurs, and of two colours it is the one with at least half of the pixels |
| `TileColours.CountedDone` | OSXvnc-server/hextile.c:301-331 | The two counts at the end decide the majority |
| `HextileFormat.TileRoundTrip` | OSXvnc-server/rfbproto.h:467-504 | Any right description of a tile, with or without its colours, is decoded by section 7.7.4 of RFC 6143 to the tile, and leaves the carried colours as the encoder supposes |
| `Hextile.SubrectEncode` | OSXvnc-server/hextile.c:191-284 | At every depth the count is below 256 (by the majority rule for mono tiles, by the length check for others), no more is written than the raw tile needs, and on success painting gives back the tile |
| `Hextile.PutRaw` | OSXvnc-server/hextile.c:166-181 | The raw fallback rewinds what was begun and fits in the space reserved |
| `Hextile.SendTile` | OSXvnc-server/hextile.c:114-183 | One tile: what is appended describes the tile given the colours carried in, and the colours carried out are those the client then has; it is of the kind that goes with the number of its colours |
| `Hextile.SendHextiles` | OSXvnc-server/hextile.c:100-188 | The bytes of any rectangle decode by section 7.7.4 of RFC 6143 to its pixels, with background and foreground carried from tile to tile |
| `Rectangles.CarriesConcat` | OSXvnc-server/rfbserver.c:1099-1159 | The bytes of one run of rectangles and of another, one after the other, decode to both runs |
| `Rectangles.CarriesPrefix` | OSXvnc-server/rfbserver.c:1099-1159 | A client that reads fewer rectangles than were sent gets the first ones, and stops before the end |
| `Rectangles.TilingsPicture` | OSXvnc-server/rfbserver.c:1099-1159 | Drawing what the boxes of a region have become: a point outside keeps its pixel, a point of a box shows what a rectangle made from that box has there |
| `Rectangles.DeliveredPicture` | OSXvnc-server/rfbserver.c:1099-1159 | With exact rectangles, every point of a box shows what was on the screen when the box was sent |
| `FramebufferUpdate.CountRects` | OSXvnc-server/rfbserver.c:1017-1049 | The number announced is the sum over the boxes, or 0xFFFF when Tight does not know one of them; for all encodings, with one for each box in those not named |
| `FramebufferUpdate.SendBoxes` | OSXvnc-server/rfbserver.c:1099-1159 | The loop over the boxes, with the framebuffer refreshed before each: every box becomes as many rectangles as were counted for it, in the encoding the client prefers, which tile it with what was then on the screen |
| `FramebufferUpdate.SendLastRectMarker` | OSXvnc-server/rfbserver.c:1262-1285 | The marker is an empty rectangle with the LastRect encoding |
| `FramebufferUpdate.MessageUpdates` | OSXvnc-server/rfbserver.c:1068-1166 | A client that reads the announced number has the right picture exactly when at most 0xFFFF rectangles were sent, and stops at the end of the message exactly when fewer were |
| `FramebufferUpdate.SomethingMissing` | OSXvnc-server/rfbserver.c:1068-1069 | If rectangles are left unread, there is a canvas, of pixels the format has, on which the picture is wrong |
| `FramebufferUpdate.ManyRects` | OSXvnc-server/rfbserver.c:1017-1049 | A valid region of a small screen can have any number of rectangles up to 0x10000, in every encoding, so that both limits are reached |
| `FramebufferUpdate.SendFramebufferUpdate` | OSXvnc-server/rfbserver.c:1005-1166 | The whole message for Raw, RRE, CoRRE and Hextile, each rectangle in the encoding preferred, or raw in place of a longer list of subrectangles: every point of the region goes out once and no other, each box with its own state of the framebuffer; the picture of the client is right if and only if the number of rectangles is at most 0xFFFF, and it is in step afterwards if and only if that number is less |
| `UpdateDelivery.Interleaving` | OSXvnc-server/main.c:387-418 | However the sending steps of a client are interleaved with damage, connections, signals and the steps of all other clients, after some of its rectangles the client shows those, and what is still to go is the rest |
| `UpdateDelivery.DeliveryIsARun` | OSXvnc-server/main.c:387-418 | Rectangles that cover what a sender has taken, each point once, are a run of the protocol: whatever happens in between, the next one can always go and the sender is not finished before the last; then it can be, every point has gone out once more, and the client has the picture drawn from them |
| `UpdateDelivery.TilingsFollow` | OSXvnc-server/main.c:387-418 | Rectangles that tile the boxes of what was taken go out like that from every state after the taking step, whatever else happens in between |
| `UpdateDelivery.RunsTakeOnScreen` | OSXvnc-server/main.c:387-398 | In a run in which all reports and all requests that are not incremental keep to the screen, what the record of any client lets the sender take lies on it |
| `UpdateDelivery.BeyondTheRow` | OSXvnc-server/corre.c:93-94 | The pixels that a client is sent right of the screen are those at the beginning of the next row of memory, a stride further |
| `UpdateDelivery.TakeAndSend` | OSXvnc-server/main.c:387-418 | Taking an update and sending it in Raw, RRE, CoRRE or Hextile: the record changes as in the taking step and what goes out follows the protocol to its finishing step. What is taken has to lie in what is read as a screen, which is the screen itself exactly under the condition of RunsOnScreen |
| `UpdateDelivery.TakeAndSendTight` | OSXvnc-server/main.c:387-418 | The same in Tight, for the colours of the pixels |
| `ZrlePalette.RunIsShort` | OSXvnc-server/zrleEncode.h:70-114 | A stretch of used slots is no longer than the number of colours, by a pigeonhole argument |
| `ZrlePalette.ProbeEnds` | OSXvnc-server/zrleEncode.h:85-108 | The probe that does not wrap around passes no more slots than there are colours, so it stays within 4096 + 127, and an empty slot means that the colour is not there |
| `ZrlePalette.PaletteHelper.Probe` | OSXvnc-server/zrleEncode.h:85-108 | Stops within the table at the slot of the colour, or at an empty one exactly when it is not in the palette |
| `ZrlePalette.PaletteHelper.Insert` | OSXvnc-server/zrleEncode.h:85-98 | A new colour is added at the end while there are fewer than 127; the 128th only counts |
| `ZrlePalette.PaletteHelper.Lookup` | OSXvnc-server/zrleEncode.h:100-108 | The index under which a colour was inserted, or -1 exactly when it was not |
| `ZrleFormat.LengthRoundTrip` | OSXvnc-server/zrleEncode.h:248-253 | Run lengths of any size are read back from their bytes of 255 |
| `ZrleFormat.RunDecodes` | OSXvnc-server/zrleEncode.h:230-253 | One run of either form, plain or by palette, one pixel, two or more, is decoded by section 7.7.6 of RFC 6143 to its pixels |
| `ZrleFormat.UnpackTop` | OSXvnc-server/zrleEncode.h:270-289 | Packed indices of 1, 2 or 4 bits are unpacked, the first from the top bits, also from a last byte that is only partly used |
| `ZrleFormat.BitsPerPackedPixel` | OSXvnc-server/zrleEncode.h:63-65 | The table gives the least of the widths 1, 2 and 4 that has an index for every colour |
| `ZrleFormat.PackSizeIs` | OSXvnc-server/zrleEncode.h:63-65 | The widths are those of section 7.7.6 of RFC 6143: 1 for two colours, 2 for three and four, 4 for five to sixteen |
| `Zrle.ScanRun` | OSXvnc-server/zrleEncode.h:155-162 | The scan with a sentinel ends at the end of the run |
| `Zrle.FindPalette` | OSXvnc-server/zrleEncode.h:146-164 | The palette holds exactly the colours of the tile while they are at most 127; runs and single pixels are counted right; the tile itself is unchanged although the sentinel is written behind it |
| `Zrle.Choose` | OSXvnc-server/zrleEncode.h:177-213 | No way open to the tile is estimated cheaper than the one chosen |
| `Zrle.WriteRuns` | OSXvnc-server/zrleEncode.h:223-254 | The runs written decode to the tile, each pixel cut to the bytes of its form, with and without a palette |
| `Zrle.WritePackedRow` | OSXvnc-server/zrleEncode.h:270-289 | The shift register of bits, flushed at full bytes and at the end of the row, decodes to the row, each pixel cut to the bytes of its form |
| `Zrle.WritePacked` | OSXvnc-server/zrleEncode.h:256-292 | The rows of a packed tile decode to its pixels and take h times the bits of a row rounded up to bytes |
| `Zrle.EstimateIs` | OSXvnc-server/zrleEncode.h:177-213 | What each way is estimated at is what it takes, but for its first byte and at most a byte per row and one for every 255 pixels |
| `Zrle.EncodeTile` | OSXvnc-server/zrleEncode.h:142-304 | Whichever of the five ways is taken, for any pixels, the bytes decode by section 7.7.6 of RFC 6143 to the tile with each pixel cut to the bytes of its form; they are no more than raw pixels or plain runs would take, but for a byte per row and one for every 255 pixels |
| `ZrleRect.EncodeRect` | OSXvnc-server/zrleEncode.h:117-139 | The tiles of any rectangle, through one buffer, decode to the rectangle with each pixel cut to the bytes of its form |
| `ZrleFormat.KeptExact` | OSXvnc-server/rdr/OutStream.h:102-117 | A pixel arrives uncut exactly when the bytes that are not sent are zero |
| `ZrleChoice.ReceivedIs` | OSXvnc-server/zrle.cc:90-125 | Which byte of a pixel the choice of the form drops, if any, for every format and byte order |
| `ZrleChoice.ColoursArrive` | OSXvnc-server/zrle.cc:100-124 | All colours of all pixels arrive if and only if no channel reaches the highest bit while all seem to fit in the lower three bytes and the upper three are not used instead |
| `ZrleChoice.PaddingIsDropped` | OSXvnc-server/zrle.cc:100-124 | With the padding on top a pixel that has bits there arrives without them |
| `ZrleChoice.RedIsLost` | OSXvnc-server/zrle.cc:100-124 | With red on top of a pixel the shifted maximum is negative, three bytes are chosen, and pure red arrives as black |
| `ZrleChoice.EncodeChosen` | OSXvnc-server/zrle.cc:80-125 | Choice and encoding of any rectangle: the client decodes every pixel as the chosen form delivers it, with its colours unless the format is of the kind named |
| `Bits.MaskedAlike` | OSXvnc-server/rfbproto.h:98-108 | Two values agree under a mask if they agree in the bits of the mask |
| `TightLevels.TightConf` | OSXvnc-server/tight.c:58-69 | Every compression level allows at least 256 pixels and at most 2048 columns |
| `TightSplit.TightClient.Send` | OSXvnc-server/tight.c:294-306 | One more piece: the bytes sent so far, decoded in a row with the four streams of the client, give the pieces sent so far as the screen shows them |
| `TightSplit.SolidArea` | OSXvnc-server/tight.c:297-306 | A solid area translates to its first pixel all over, so that sending that one pixel is right |
| `TightSplit.TightClient.CheckSolidTile` | OSXvnc-server/tight.c:406-449 | True exactly when all pixels are equal, and equal to the given colour if one is asked for |
| `TightSplit.TightClient.FindBestSolidArea` | OSXvnc-server/tight.c:333-369 | The area found lies in the rectangle, starts at its corner with at least the first tile, and is of one colour; no area of whole tiles at that corner that is of one colour is larger |
| `TightSplit.TightClient.SendSolidArea` | OSXvnc-server/tight.c:251-331 | A tile that starts an area of whole tiles of one colour with at least 2048 pixels makes the rectangle go out with a filled piece; if all of the rectangle is of one colour it goes out alone |
| `TightSplit.TightClient.ExtendSolidArea` | OSXvnc-server/tight.c:371-404 | The area grown is of one colour, lies in the rectangle and cannot grow further in any direction |
| `TightSplit.TightClient.SendRectSimple` | OSXvnc-server/tight.c:451-502 | The grid covers the rectangle exactly, within the limits of the level, with as many pieces as the formula says |
| `TightSplit.TightClient.SendRectEncodingTight` | OSXvnc-server/tight.c:197-331 | The recursion terminates; the pieces are disjoint and cover exactly the rectangle; every piece sent as solid is of one colour and every other within the limits; a rectangle of one colour and at least 4096 pixels is one solid piece if LastRect is enabled, and something is sent as solid whenever an area of whole tiles of one colour has 2048 pixels; their number is the one announced unless that was unknown; the bytes sent still decode to the pieces sent |
| `TightSplit.TightClient.SendAround` | OSXvnc-server/tight.c:276-321 | What is above, left, right and below a solid area, each by recursion or grid, and the solid area itself as one piece, complete the cover |
| `TightSplit.CoverJoin` | OSXvnc-server/tight.c:282-321 | Exact covers of two parts make an exact cover of the whole |
| `TightPalette.Palette.Reset` | OSXvnc-server/tight.c:1030-1035 | After a reset the palette is empty and valid, whatever the arrays hold |
| `TightPalette.Palette.Find` | OSXvnc-server/tight.c:1046-1070 | The chain of a hash key leads to every colour that is in the palette |
| `TightPalette.Palette.Bump` | OSXvnc-server/tight.c:1051-1066 | A colour with more pixels moves up past those with fewer: order and links stay right and only its count changes |
| `TightPalette.Palette.AddNode` | OSXvnc-server/tight.c:1078-1099 | A new colour is linked at the end of its chain and placed by its count |
| `TightPalette.Palette.Insert` | OSXvnc-server/tight.c:1039-1100 | Entries stay in order of count, entries and nodes stay inverse, every colour stays reachable; counts are as added; 0 exactly when a new colour does not fit |
| `TightFill.FillPalette8` | OSXvnc-server/tight.c:908-948 | The number of colours: exact up to two if allowed, else 0; of two colours the background has no fewer pixels |
| `TightFill.FillPalette` | OSXvnc-server/tight.c:953-1014 | The number of distinct colours if it is 1 or fits both paletteMaxColors and 256, else 0; the palette then holds exactly these colours |
| `TightFill.TwoStart` | OSXvnc-server/tight.c:974-977 | The second colour is counted one short, as the code starts it from 0 |
| `TightBuffer.EncodeIndexedRect` | OSXvnc-server/tight.c:1143-1173 | In place over the pixels it reads: every index looks up the pixel it stands for and no pixel is overwritten before it is read |
| `TightBuffer.EncodeMonoRow` | OSXvnc-server/tight.c:1198-1231 | One row of bits, in place, decodes to the row |
| `TightBuffer.EncodeMonoRect` | OSXvnc-server/tight.c:1183-1232 | The bits, eight to a byte and each row starting a byte, decode to all pixels of the two colours |
| `TightBuffer.Pack24` | OSXvnc-server/tight.c:1110-1136 | In place: three bytes per pixel, and no pixel is overwritten before it is read |
| `TightBuffer.SamplesRebuild` | OSXvnc-server/tight.c:1110-1136 | The three bytes give back a pixel that uses no other byte, in whatever order of whole bytes the colours lie |
| `TightGradient.UnfilterRow` | OSXvnc-server/tight.c:1273-1297 | A decoder that predicts from samples already decoded recovers the row |
| `TightGradient.OnlyOneClosest` | OSXvnc-server/tight.c:1288-1294 | There is only one sample nearest to left + upper - upper left, which the prediction is |
| `TightGradient.FilterPixel` | OSXvnc-server/tight.c:1281-1297 | Each of the three differences is what the sample differs by, modulo its range, from the sample nearest to left + upper - upper left |
| `TightGradient.GradientRoundTrip` | OSXvnc-server/tight.c:1248-1369 | The gradient filter is invertible for all rows of any image |
| `TightGradient.FilterGradient24` | OSXvnc-server/tight.c:1249-1298 | In place: undoing the filter on the bytes left in the buffer gives back every sample, so no pixel was overwritten before it was read |
| `PixelFields.FieldsRoundTrip` | OSXvnc-server/tight.c:1348-1358 | Three fields that do not overlap are read back from the pixel they were shifted into, in whatever order they lie |
| `PixelFields.JoinedWithin` | OSXvnc-server/tight.c:1357-1358 | Such a pixel fits in the width of the format |
| `TightGradientFields.FilterRow` | OSXvnc-server/tight.c:1332-1364 | One row in place, pixels with or without swapped bytes: the samples left are the differences of the samples that were there |
| `TightGradientFields.FilterGradient` | OSXvnc-server/tight.c:1308-1369 | Undoing the filter on the pixels left in the buffer gives back every sample |
| `TightData.SendCompressedData` | OSXvnc-server/tight.c:870-901 | Length and data reach the client through the update buffer, in portions, unchanged |
| `ZlibLines.SendRectEncodingZlib` | OSXvnc-server/zlib.c:213-280 | The line loop sends as many groups as announced, each non-empty, one below the other, from the first line to the last |
| `Des.SwapsCancel` | OSXvnc-server/d3des.c:329-388 | The bit exchanges before the rounds undo those after them, up to exchanging the halves |
| `Des.RoundCancels` | OSXvnc-server/d3des.c:359-374 | A round with the same key words is its own inverse once the halves are exchanged |
| `Des.RoundsCancel` | OSXvnc-server/d3des.c:359-374 | Rounds with the words in reverse order take back the last rounds, for any number of them |
| `Des.DesCancels` | OSXvnc-server/d3des.c:322-394 | What one order of the round keys does to a block, the reverse order undoes |
| `Des.SchedulesOpposite` | OSXvnc-server/d3des.c:66-100 | The two modes of deskey leave the words of the rounds in opposite order |
| `Des.TopBitsIgnored` | OSXvnc-server/d3des.c:72-77 | The key schedule does not depend on the top bit of any key byte |
| `DesBoxes.Box1` | OSXvnc-server/d3des.c:178-195 | Every entry of SP1 has the four bits of the first selection function of FIPS 46-3 at its row and column |
| `DesTargets.BoxBit` | OSXvnc-server/d3des.c:178-320 | Every entry of the eight tables, bit by bit, is what the permutation P of FIPS 46-3 makes of its selection function, in a word that is turned by one |
| `DesRounds.RoundValueIsF` | OSXvnc-server/d3des.c:359-374 | What a round adds is the cipher function f of FIPS 46-3, for every half block and every round key |
| `DesPermutations.InitialIs` | OSXvnc-server/d3des.c:329-357 | The exchanges of bits before the rounds are the initial permutation, with both halves turned by one |
| `DesKeys.RoundKeyAt` | OSXvnc-server/d3des.c:66-100 | Bit by bit, the key schedule KS of FIPS 46-3 is the selection from a rotated key that deskey makes |
| `DesKeys.ScheduleHolds` | OSXvnc-server/d3des.c:66-122 | The two cooked words of each round hold the 48 bits of its key under KS, the bits of each key byte taken in the opposite order |
| `DesStandard.DesFunctionIs` | OSXvnc-server/d3des.c:322-394 | For every block and any sixteen round keys, desfunc is the enciphering of FIPS 46-3 |
| `DesStandard.RegisterIsStandard` | OSXvnc-server/d3des.c:66-150 | A key register filled for either direction enciphers or deciphers every block by FIPS 46-3 under the mirrored key |
| `DesStandard.SameBlock` | OSXvnc-server/d3des.c:152-176 | The bits of a block determine its bytes, so that the above leaves no freedom |
| `KeyRegister.KeyRegister.Deskey` | OSXvnc-server/d3des.c:66-100 | The register holds the schedule of the key, in the order of the mode, whatever it held before |
| `KeyRegister.KeyRegister.Cookey` | OSXvnc-server/d3des.c:102-141 | The bits of each pair of raw words are put where the rounds look for them |
| `KeyRegister.KeyRegister.Desfunc` | OSXvnc-server/d3des.c:322-394 | The statements compute sixteen rounds between the bit exchanges |
| `KeyRegister.KeyRegister.DesBlock` | OSXvnc-server/d3des.c:143-150 | Eight bytes are transformed, from one buffer into the same or another, and no other byte changes |
| `VncAuth.ScheduleIs` | OSXvnc-server/d3des.c:66-100 | A key and a mode determine the register |
| `VncAuth.DecryptUndoesEncrypt` | OSXvnc-server/d3des.c:66-150 | For every key and block each direction undoes the other |
| `VncAuth.IsStandard` | OSXvnc-server/vncauth.c:44-184 | For every key and every block, encryption is the enciphering of FIPS 46-3 and decryption its deciphering, the bits of each key byte in the opposite order |
| `VncAuth.EncryptAndStorePasswd` | OSXvnc-server/vncauth.c:66-99 | The file gets the first eight characters, padded with nulls, encrypted under the fixed key |
| `VncAuth.DecryptPasswdFromFile` | OSXvnc-server/vncauth.c:107-138 | Without eight bytes in the file there is no password; else they are decrypted and terminated |
| `VncAuth.StoreAndReadBack` | OSXvnc-server/vncauth.c:66-138 | A stored password is read back as its first eight characters |
| `VncAuth.EncryptPasswdReadsBack` | OSXvnc-server/vncauth.c:44-59 | What vncEncryptPasswd returns is copied as a string: it decrypts to the password exactly when no other byte follows a null in the ciphertext |
| `KeyHalves.RotatedHolds` | OSXvnc-server/d3des.c:78-87 | The bits of the key in any round are in two words that are turned |
| `KeyHalves.RawIs` | OSXvnc-server/d3des.c:66-100 | The raw words of any key and round are put together from the two turned words |
| `FixedKeyWords.Words` | OSXvnc-server/vncauth.c:41 | The 32 key words of the fixed key, worked out |
| `LostPassword.CipherIs` | OSXvnc-server/vncauth.c:44-59 | The password of a single t encrypts to eight bytes of which the sixth is null and the seventh is not |
| `LostPassword.PasswordLost` | OSXvnc-server/vncauth.c:44-59 | So vncEncryptPasswd loses that password: what it returns decrypts to something else |
| `VncAuth.EncryptBytes` | OSXvnc-server/vncauth.c:163-184 | Both blocks of the challenge of section 7.2.2 of RFC 6143 are enciphered by the Data Encryption Standard, the key being the padded password with the bits of each byte mirrored |
| `VncAuth.SameResponse` | OSXvnc-server/vncauth.c:163-184 | Passwords whose first eight characters differ only in their top bits give the same response |
| `Translation.ScaledInRange` | OSXvnc-server/tableinittctemplate.c:77-79 | A scaled component stays within the greatest value of its field |
| `Translation.ScaledNear` | OSXvnc-server/tableinittctemplate.c:77-79 | Scaling rounds to the nearest |
| `Translation.ScaleUpAndBack` | OSXvnc-server/tableinittctemplate.c:77-79 | Scaling to a greater or equal range and back gives the original value |
| `Translation.ScaledIsNearest` | OSXvnc-server/tableinittctemplate.c:77-79 | No value of the output field is nearer to the true proportion than the scaled one |
| `Translation.SwapReverses` | OSXvnc-server/tableinittctemplate.c:85-88 | Swapping an entry puts its bytes in the opposite order |
| `Translation.FieldBits` | OSXvnc-server/tableinittctemplate.c:74-76 | What is taken of a pixel is, bit by bit, the field at its shift under its greatest value |
| `Translation.FieldIsPart` | OSXvnc-server/tableinittctemplate.c:74-76 | For a greatest value of ones the field is found by division and remainder |
| `Translation.EntryShows` | OSXvnc-server/tableinittctemplate.c:72-88 | For every pixel and output format whose fields do not overlap, each field of the entry, by division and remainder, is the nearest value to that field of the pixel, and no other bit is set |
| `Translation.ThreeTablesAgree` | OSXvnc-server/tabletranstemplate.c:100-104 | Three lookups or-ed together are the single-table formula, for all true-colour formats, with or without swapped bytes |
| `Translation.InitSingleTable` | OSXvnc-server/tableinittctemplate.c:59-90 | Every entry is the formula of its pixel |
| `Translation.InitOneTable` | OSXvnc-server/tableinittctemplate.c:121-136 | Every entry is the formula of its component; the rest of the storage is left alone |
| `Translation.InitRGBTables` | OSXvnc-server/tableinittctemplate.c:98-119 | The three tables lie one after the other in one allocation and each is right |
| `Translation.TranslateRect` | OSXvnc-server/tabletranstemplate.c:54-112 | With either kind of table, rows of the input lying a stride apart: every pixel of the output, once its byte order is undone, has in each of its fields the nearest value to the field of the input pixel, and no other bit, for every output format whose fields do not overlap |
| `ZrleFormat.PixelInOut` | OSXvnc-server/rdr/OutStream.h:112-117 | A pixel sent as the low or the high three of its bytes is read back when the fourth is zero |
| `Basics.LowBits` | OSXvnc-server/tableinittctemplate.c:73-75 | Masking with a greatest value of k ones is taking the remainder, also of negative numbers |
| `PixelFields.FieldIsMasked` | OSXvnc-server/tight.c:1348 | The field taken by division is the one the code masks out |
| `ZrlePalette.Pigeonhole` | OSXvnc-server/zrleEncode.h:110-112 | Different slots of the palette number no more than its size |
| `Bytes.SwappedTwice` | OSXvnc-server/tight.c:1340-1362 | Swapping the bytes of a pixel twice gives it back |
| `TightFormat.TPixelsRoundTrip` | OSXvnc-server/tight.c:612-616 | Pixels are read back from the wire, in three bytes without what belongs to no colour, else exactly |
| `TightFormat.PlainKeepsSamples` | OSXvnc-server/tight.c:1104-1136 | A pixel cut down to its colours has the samples of the pixel it was made of, in either form |
| `TightWays.LongDataGives` | OSXvnc-server/tight.c:817-868 | Compressed data is read back, since its length is below 2 to the 22, and the stream of the client has seen what that of the server has |
| `TightWays.MonoGives` | OSXvnc-server/tight.c:632-693 | Control byte, filter, palette of two and bits decode to the pixels |
| `TightWays.IndexedGives` | OSXvnc-server/tight.c:695-753 | Control byte, filter, palette and indices decode to the pixels |
| `TightWays.CopyGives` | OSXvnc-server/tight.c:755-778 | Control byte and pixels decode to the pixels |
| `TightWays.GradientGives` | OSXvnc-server/tight.c:780-815 | Control byte, filter and differences decode to the pixels made of their colours |
| `TightRect.TightCoder.CompressData` | OSXvnc-server/tight.c:817-868 | Short data as it is and long data through its stream are read back; it fails only if a write fails or the after-buffer is full |
| `TightRect.TightCoder.SendSolidRect` | OSXvnc-server/tight.c:607-630 | The rectangle decodes to one colour all over |
| `TightRect.TightCoder.SendMonoRect` | OSXvnc-server/tight.c:632-693 | The rectangle decodes to its pixels |
| `TightRect.TightCoder.SendIndexedRect` | OSXvnc-server/tight.c:695-753 | The rectangle decodes to its pixels, the palette being in order of frequency |
| `TightRect.TightCoder.SendFullColorRect` | OSXvnc-server/tight.c:755-778 | The rectangle decodes to its pixels |
| `TightRect.TightCoder.SendGradientRect` | OSXvnc-server/tight.c:780-815 | The rectangle decodes to its pixels, or to their colours, for each of the pixel formats |
| `TightRect.TightCoder.SendPixels` | OSXvnc-server/tight.c:526-575 | Whichever way the count of colours selects is right for the pixels, and the control byte is the one that goes with that count |
| `TightRect.TightCoder.SendSubrect` | OSXvnc-server/tight.c:504-576 | Header and body of a rectangle up to the limits of the level: the body decodes to what the screen shows there |
| `TightRect.FaithfulColours` | OSXvnc-server/tight.c:1104-1136 | In any case the client sees the same colours |
| `TightWire.TightCarriesStep` | OSXvnc-server/tight.c:484-499 | One more rectangle after a run of them: the bytes decode to one more, with the streams carried on |
| `TightWire.UntilLast` | OSXvnc-server/rfbserver.c:1161-1162 | A client that reads up to the marker reads the same rectangles as one that counts them, and fails when nothing follows |
| `TightWire.TightPicture` | OSXvnc-server/rfbserver.c:1099-1159 | Every point of a box shows what was on the screen when the box was sent, up to bits that belong to no colour |
| `TightUpdate.SendTightBoxes` | OSXvnc-server/rfbserver.c:1099-1159 | Every box, with the framebuffer it finds, is cut up exactly into right pieces, as many as announced unless that was unknown, and the bytes of all of them decode in a row |
| `TightUpdate.TooMany` | OSXvnc-server/rfbserver.c:1068-1069 | A known number that does not fit the header: the client reads too few rectangles, or looks for a marker that is not there |
| `TightUpdate.MessageUpdates` | OSXvnc-server/rfbserver.c:1041-1166 | The picture is right exactly when the number is unknown or at most 0xFFFF; the message is read to its end, with the streams where the encoder has them, exactly when besides it is not a known 0xFFFF for a client that does not know the marker |
| `TightUpdate.SendFramebufferUpdate` | OSXvnc-server/rfbserver.c:1005-1166 | The whole message in Tight, counted or with the marker: every point of the region is sent once and no other, each box with its own state of the framebuffer; the client ends with the right picture if and only if the number of rectangles is unknown or at most 0xFFFF, and in step unless a known 0xFFFF brings a marker it does not know; it succeeds whenever no write fails and compressed data fits |
| `WireLiterals.Headers` | OSXvnc-server/rfbproto.h:299-359 | The bytes of a rectangle header in each encoding, and of the marker after the last rectangle |
| `WireLiterals.SubrectBytes` | OSXvnc-server/rfbproto.h:441-477 | The bytes of one subrectangle in RRE and in CoRRE |
| `WireLiterals.HextileTiles` | OSXvnc-server/rfbproto.h:506-520 | The bytes of a raw tile, of one with a background, and of tiles with plain and with coloured subrectangles |
| `WireLiterals.TightBytes` | OSXvnc-server/rfbproto.h:552-560 | The first bytes of a rectangle of two colours, three lengths, and the numbers of fills and filters |
| `WireLiterals.Levels` | OSXvnc-server/tight.c:58-69 | The columns of the table of levels |
| `WireLiterals.Sizes` | OSXvnc-server/tight.c:37-39 | The sizes that the encoders go by |

## Left out

- 16-bit coordinates: boxes are unbounded; the source wraps a request whose far edge exceeds 32767.
- Storage of regions: allocation sizes, shrinking and running out of memory are not modelled; an empty region has one form here, where the source distinguishes static and allocated empty data.
- Regions.Region.RegionOp: the rectangle arrays are sequence values, so sharing between an old and a new array is not captured; the destination being a source record is.
- miTranslateRegion, miClipSpans, miRectsToRegion and miFindMaxBand are not modelled.
- UpdateProtocol.RunsAreSafe: a client that disconnects or whose connection fails, and the wake-ups of cursor and screen-size changes, are outside the state machine; a cursor or size to be sent is the free flag of the sender's test.
- Server-side scaling: the scaling factor is 1 throughout.
- FramebufferUpdate.SendFramebufferUpdate: cursor and screen-size pseudo-rectangles are not sent; messages in Zlib, ZlibHex and ZRLE are counted but not followed down to the bytes. The framebuffer may change from one box to the next but not while a box is encoded, although the sender of another client may then refresh the same memory. The boxes of the region have to lie in what is read as a screen, of less than 0x10000 by 0x10000 pixels. Where a request reaches beyond the real screen (`UpdateProtocol.RunsOnScreen` says when) that is a larger piece of memory; beyond the end of the framebuffer, where C defines nothing, the values read are arbitrary.
- UpdateBuffer.UpdateBuf.SendUpdateBuf: a write either succeeds or fails as a whole, at random unless the connection is healthy.
- Rre.SubrectEncode: the after-buffer is as large as the raw rectangle at least for the callers; how it grows is left out. The scan tests the column before it reads the pixel, the source the other way round.
- ZRLE: the zlib stream is an append-only sequence of bytes.
- ZrleChoice.ChosenForm: shift counts of 32 and more, undefined in C, and channels without a value are left out. The code does not look at the depth, which section 7.7.5 of RFC 6143 limits to 24 for the three-byte form; a client that expects another form than the one chosen is not modelled.
- TightRect.TightCoder.CompressData: zlib is any pair of functions of the blocks a stream has had, the second undoing the first; parameters other than the level, and its error returns, are left out. The after-buffer has the size computed for the level, where the source keeps a larger one if it has it.
- TightRect.TightCoder.SendSubrect: clients that accept JPEG are left out, and what the smoothness test finds is free; the before-buffer is given both as pixels and as bytes, which the source gets by casting one pointer.
- Zlib and JPEG are foreign code; zlibhex.c repeats hextile.c around a compressor.
- TightGradient.FilterGradient24: the greatest value of a channel is one less than a power of two, as section 7.4 of RFC 6143 has it, and masking with it is the remainder (`Basics.LowBits`); likewise in TightGradientFields.
- TightFormat.IsFormat: the three-byte form of Tight is taken to have pixels of four bytes with a whole byte for each colour, as the comments of the code say; the code itself tests only the depth and the maxima.
- TightFill.FillPalette: the counts of pixels behind the order of the palette start one short for the second colour, as in the code; only order and membership are stated.
- Des.DesFunction: words have 32 bits where the source computes in unsigned long and cuts off what lies above.
- Translation.EntryShows: where fields of the output overlap or reach beyond its width, only the formula of the entry is stated.
- Pixels in buffers are stored low byte first, as on a little-endian host.
- VncAuth: files, the random challenge and the policy of auth.c are not modelled.
- Sockets, screen capture, input events, pasteboard, the user interface and the bundles are not modelled.
