# A model of the stroll virtual display and play-screen tile map

The stroll engine draws through a virtual display controller in the style of
a handheld console (`AbstractGraphics`). The controller has a few registers:

- a screen width and height;
- a line counter `vCount`;
- a frame buffer of ARGB pixels;
- horizontal-blank (HBL) and vertical-blank (VBL) interrupt channels, each an
  enable flag plus a listener;
- a screen viewer;
- a running flag.

A render thread draws a frame line by line. For each line it clears the line
to opaque black, sets `vCount`, lets the layers draw the line, and raises the
horizontal blank. After the last line it tells the viewer that the frame is
complete. Then it raises the vertical blank, which first wakes a caller that
is suspended in `waitVBL` and then calls the VBL listener. Callers set the
flags and listeners, start and stop the display, and wait for the vertical
blank.

The play screen of the Tetris game (`PlayGameScreen`) fills the tile map of a
background layer once a frame:

- it clears the map;
- it draws the well border (two walls and a floor);
- it draws the settled blocks of the playfield, each with the tile its piece
  letter and block shape select;
- it draws the falling piece, clipped to the well;
- it prints text into a layer's tile map.

The Dafny model has nine modules:

- `JavaInt`: 32-bit `int` wrap-around, as used by the buffer allocation.
- `Events`: what a frame does to the outside world, as a trace of events:
  lines drawn, listener calls, viewer notifications and waiter wake-ups.
- `Display`: the registers, the constructor, the setters, `start`, `stop`
  and `waitVBL`.
- `Render`: one frame of the render loop and a run of frames. The layers'
  drawing is a parameter, a `Hook` from (the line as found, line number) to
  the new line.
- `RenderProperties`: what a frame guarantees. This covers:
  - the order of `vCount` values;
  - the interrupt counts and their gating by flag and listener;
  - the order of events within a frame;
  - the resulting image;
  - that a `stop` during a frame lets the frame finish;
  - that the loop leaves after such a frame.
- `Tiles`: the tile-index lookups (piece group, block shape, block tile), with
  a decoder that inverts them.
- `TileMap`: the map writes of a play-screen frame and of `print`, as methods
  with loop invariants over a flat map `seq<int>`.
- `Wrappers` and `Arith`: an option/result type and facts about row-major
  indexing.

Java's `null` is `None`. A Java `char` is a UTF-16 code unit (`Char16`). The
literal `0xff000000` stored in an `int` array is the value -16777216
(`Display.OpaqueBlack`).

## Model

| member | source | states |
|---|---|---|
| `JavaInt.Wrap` | stroll_010/src/org/konelabs/stroll/graphics/AbstractGraphics.java:109 | The 32-bit product is congruent to the exact product modulo 2^32 and equals it when the exact product fits an `int`. |
| `Display.New` | stroll_010/src/org/konelabs/stroll/graphics/AbstractGraphics.java:105-111 | Construction fails with NegativeArraySize exactly when the 32-bit product `width * height` is negative. Otherwise the buffer holds that many zero pixels, `vCount` is 0, neither interrupt is enabled, there are no listeners and no viewer, and the display is not running. |
| `Display.NewBufferSize` | stroll_010/src/org/konelabs/stroll/graphics/AbstractGraphics.java:105-111 | When `width * height` fits an `int` and is not negative, construction succeeds with exactly `width * height` pixels. |
| `Display.SetHblEnable` | stroll_010/src/org/konelabs/stroll/graphics/AbstractGraphics.java:199-201 | Sets the HBL flag, keeps the HBL listener, and changes no other register. |
| `Display.SetHblListener` | stroll_010/src/org/konelabs/stroll/graphics/AbstractGraphics.java:204-206 | Sets the HBL listener, keeps the HBL flag, and changes no other register. |
| `Display.SetVblEnable` | stroll_010/src/org/konelabs/stroll/graphics/AbstractGraphics.java:223-225 | Sets the VBL flag, keeps the VBL listener, and changes no other register. |
| `Display.SetVblListener` | stroll_010/src/org/konelabs/stroll/graphics/AbstractGraphics.java:228-230 | Sets the VBL listener, keeps the VBL flag, and changes no other register. |
| `Display.SetScreenViewer` | stroll_010/src/org/konelabs/stroll/graphics/AbstractGraphics.java:214-220 | Sets the viewer and changes no other register. A viewer that is not null is handed the buffer exactly once. Clearing the viewer hands nothing to anyone. |
| `Display.Start` | stroll_010/src/org/konelabs/stroll/graphics/AbstractGraphics.java:269-281 | Returns whether the display is initialised. An uninitialised display is left as it was. Otherwise the display ends up running with nothing else changed, and a render thread is spawned exactly when it was not running before. |
| `Display.Stop` | stroll_010/src/org/konelabs/stroll/graphics/AbstractGraphics.java:284-286 | Clears the running flag and nothing else. |
| `Display.WaitVbl` | stroll_010/src/org/konelabs/stroll/graphics/AbstractGraphics.java:235-252 | The caller is suspended exactly when the display is running. A stopped display is left as it was. A running one records the waiter and changes nothing else. |
| `Display.StartIsIdempotent` | stroll_010/src/org/konelabs/stroll/graphics/AbstractGraphics.java:269-281 | A second `start` succeeds, spawns no further thread and changes nothing. |
| `Display.StopUndoesStart` | stroll_010/src/org/konelabs/stroll/graphics/AbstractGraphics.java:269-286 | `stop` after a `start` from the stopped state gives back the original registers. |
| `Render.DrawLine` | stroll_010/src/org/konelabs/stroll/graphics/AbstractGraphics.java:147-158 | After a line is processed it holds what the layers draw on an all-black line. No pixel outside that line changes. |
| `Render.CallHbl` | stroll_010/src/org/konelabs/stroll/graphics/AbstractGraphics.java:81-86 | The HBL listener is called at most once, and it is called exactly when HBL is enabled and a listener is set. The call goes to the HBL listener and reports the current line. |
| `Render.CallVbl` | stroll_010/src/org/konelabs/stroll/graphics/AbstractGraphics.java:89-101 | A suspended waiter is woken once whatever the VBL flag says. The VBL listener is called once exactly when VBL is enabled and a listener is set. The wake-up comes before the listener call. Nothing else happens: every event is the wake-up or a call to the VBL listener. The wait token is released. |
| `Render.NotifyViewer` | stroll_010/src/org/konelabs/stroll/graphics/AbstractGraphics.java:162-164 | The registered viewer is told about the finished frame once when it is set, and never otherwise. Nothing else happens. |
| `Render.Frame` | stroll_010/src/org/konelabs/stroll/graphics/AbstractGraphics.java:141-178 | A frame keeps the size, the buffer length, both channels and the viewer, and leaves no waiter suspended. It clears the running flag exactly when `stop` was called during the frame. |
| `Render.Run` | stroll_010/src/org/konelabs/stroll/graphics/AbstractGraphics.java:141-178 | The render loop keeps the size and the buffer length, and does nothing at all on a display that is not running. |
| `Render.Apply` | stroll_010/src/org/konelabs/stroll/graphics/AbstractGraphics.java:141-286 | No setter, lifecycle call, wait or frame changes the screen size or the length of the frame buffer. |
| `Render.ApplyAll` | stroll_010/src/org/konelabs/stroll/graphics/AbstractGraphics.java:141-286 | No sequence of operations changes the screen size or reallocates the frame buffer. |
| `RenderProperties.ScanEventsVisitLines` | stroll_010/src/org/konelabs/stroll/graphics/AbstractGraphics.java:145-160 | The line loop draws lines `y` .. `rows - 1`, each once, in increasing order. |
| `RenderProperties.ScanEventsHblCount` | stroll_010/src/org/konelabs/stroll/graphics/AbstractGraphics.java:145-160 | The line loop calls the HBL listener once per line when the channel fires, and never otherwise. |
| `RenderProperties.HblFollowsItsLine` | stroll_010/src/org/konelabs/stroll/graphics/AbstractGraphics.java:155-159 | Every HBL call comes right after a line is drawn and sees that line in `vCount`. |
| `RenderProperties.LineFollowedByHbl` | stroll_010/src/org/konelabs/stroll/graphics/AbstractGraphics.java:155-159 | When the HBL channel fires, every drawn line is followed at once by its HBL call. |
| `RenderProperties.DrawLinesKeeps` | stroll_010/src/org/konelabs/stroll/graphics/AbstractGraphics.java:145-160 | The line loop from line `y` on leaves earlier lines and pixels beyond the last line untouched. |
| `RenderProperties.DrawLinesImage` | stroll_010/src/org/konelabs/stroll/graphics/AbstractGraphics.java:145-160 | After the line loop from `y` on, every line from `y` on holds what the layers draw on a black line. |
| `RenderProperties.FrameVisitsLinesInOrder` | stroll_010/src/org/konelabs/stroll/graphics/AbstractGraphics.java:145-160 | Within a frame, `vCount` takes the values 0 .. height - 1 in order, and it ends at height - 1. |
| `RenderProperties.FrameInterruptCounts` | stroll_010/src/org/konelabs/stroll/graphics/AbstractGraphics.java:141-178 | Per frame, the HBL listener is called height times if HBL is enabled with a listener set, and 0 times otherwise. The viewer is told once if one is set. A suspended waiter is woken once. The VBL listener is called once if VBL is enabled with a listener set, and 0 times otherwise. |
| `RenderProperties.FrameEventOrder` | stroll_010/src/org/konelabs/stroll/graphics/AbstractGraphics.java:145-167 | All line and HBL events of a frame come before the viewer notification, the wake-up and the VBL call, which come in that order. |
| `RenderProperties.FrameImage` | stroll_010/src/org/konelabs/stroll/graphics/AbstractGraphics.java:145-160 | After a frame, every line holds what the layers draw on a black line. Pixels past the last line are untouched. |
| `RenderProperties.DrawLinesPixel` | stroll_010/src/org/konelabs/stroll/graphics/AbstractGraphics.java:145-158 | Pixel `i` of the line loop's result is pixel `i % w` of what the layers draw for line `i / w`. |
| `RenderProperties.FramePixel` | stroll_010/src/org/konelabs/stroll/graphics/AbstractGraphics.java:145-158 | After a frame, a pixel depends only on what the layers draw on its black-cleared line. Since a `Hook` sees only its own line (see Left out), the previous frame never shows through. |
| `RenderProperties.FrameWithoutDrawingIsBlack` | stroll_010/src/org/konelabs/stroll/graphics/AbstractGraphics.java:149-152 | When the layers draw nothing, every pixel of the frame is opaque black. |
| `RenderProperties.StopDoesNotTruncateFrame` | stroll_010/src/org/konelabs/stroll/graphics/AbstractGraphics.java:283-286 | A `stop` during a frame leaves that frame's events, pixels and `vCount` as they would have been without it. Only the running flag differs. |
| `RenderProperties.SilencedHblIsNeverCalled` | stroll_010/src/org/konelabs/stroll/graphics/AbstractGraphics.java:81-86 | Clearing the HBL listener, or disabling HBL, stops every HBL call of the next frame. |
| `RenderProperties.WaiterReleasedByNextFrame` | stroll_010/src/org/konelabs/stroll/graphics/AbstractGraphics.java:89-101 | A caller that `waitVBL` suspends is woken exactly once by the next frame, whatever the VBL flag says. |
| `RenderProperties.RunEndsAfterStoppedFrame` | stroll_010/src/org/konelabs/stroll/graphics/AbstractGraphics.java:143-177 | The render loop leaves after the frame during which `stop` was called. That frame is the last one, and it is complete. |
| `RenderProperties.StoppedDisplayIsIdle` | stroll_010/src/org/konelabs/stroll/graphics/AbstractGraphics.java:235-239 | On a stopped display `waitVBL` returns at once without effect, and the render loop draws nothing. |
| `RenderProperties.TwoFramesThenStop` | stroll_010/src/org/konelabs/stroll/graphics/AbstractGraphics.java:141-178 | Example: a 4 x 3 display with HBL on and VBL off runs two frames, with `stop` called in the second. The result is 6 HBL calls, 0 VBL calls, 2 viewer updates, `vCount` 2 and a stopped display. |
| `Tiles.ToUpper` | stroll_010/src/org/konelabs/stroll/gui/screens/PlayGameScreen.java:159 | Lower-case ASCII letters become upper case, capitals stay, dotless i becomes 'I' and long s becomes 'S'. An ASCII capital comes from nothing else. |
| `Tiles.PieceTypeIndex` | stroll_010/src/org/konelabs/stroll/gui/screens/PlayGameScreen.java:158-177 | Returns the position of the upper-cased letter in S, Z, I, T, O, L, J, and -1 exactly when it is none of them. |
| `Tiles.PieceLetterIndex` | stroll_010/src/org/konelabs/stroll/gui/screens/PlayGameScreen.java:158-177 | Each of S, Z, I, T, O, L, J, in upper or lower case, has index 0 .. 6 in that order. |
| `Tiles.PieceTypeOffset` | stroll_010/src/org/konelabs/stroll/gui/screens/PlayGameScreen.java:154-156 | A piece letter selects the first tile of its own twelve-tile group, in the range 24 .. 107, and that group decodes back to the letter. Any other character gives 12. |
| `Tiles.PieceTypeOffsetInjective` | stroll_010/src/org/konelabs/stroll/gui/screens/PlayGameScreen.java:154-177 | Two piece characters share a group exactly when they upper-case to the same letter. |
| `Tiles.BlockTypeOffset` | stroll_010/src/org/konelabs/stroll/gui/screens/PlayGameScreen.java:179-209 | EMPTY gives -1, an unlisted block type gives 0, and CENTRE .. W give offsets in 1 .. 11. |
| `Tiles.BlockTypeOfOffset` | stroll_010/src/org/konelabs/stroll/gui/screens/PlayGameScreen.java:179-209 | The reverse lookup is defined exactly on -1 and 1 .. 11. |
| `Tiles.BlockTypeOffsetRoundTrip` | stroll_010/src/org/konelabs/stroll/gui/screens/PlayGameScreen.java:179-209 | The block-shape lookup and its reverse are inverse to each other on the twelve listed shapes. |
| `Tiles.BlockTypeOffsetInjective` | stroll_010/src/org/konelabs/stroll/gui/screens/PlayGameScreen.java:179-209 | Distinct listed shapes get distinct offsets, none of them 0. |
| `Tiles.BlockIndex` | stroll_010/src/org/konelabs/stroll/gui/screens/PlayGameScreen.java:211-226 | A block whose letter names no piece gets tile 0. A block of an erased piece gets its group's plain tile. Any other block of a piece gets its group's first tile plus its shape's offset, a tile in 23 .. 107. |
| `Tiles.DecodeTile` | stroll_010/src/org/konelabs/stroll/gui/screens/PlayGameScreen.java:154-209 | Reading a tile back gives a piece letter and shape exactly for the tiles of the seven piece groups. |
| `Tiles.BlockIndexRoundTrip` | stroll_010/src/org/konelabs/stroll/gui/screens/PlayGameScreen.java:211-226 | For a block of a known piece with a non-empty listed shape, the tile decodes to the piece letter and the shape. For an erased piece it decodes to the plain group tile. |
| `Tiles.EmptyBlockTile` | stroll_010/src/org/konelabs/stroll/gui/screens/PlayGameScreen.java:211-226 | An EMPTY block of a piece that is not erased shows the W tile of the previous piece group. For an S piece it shows tile 23, which lies outside every group. |
| `Tiles.UnlistedBlockTile` | stroll_010/src/org/konelabs/stroll/gui/screens/PlayGameScreen.java:211-226 | A block whose shape the lookup does not list shows its group's plain colour tile, erased or not. |
| `Tiles.FallingPieceTile` | stroll_010/src/org/konelabs/stroll/gui/screens/PlayGameScreen.java:134 | The falling piece is drawn with its group's CENTRE tile. A character that is not a piece gets tile 13, outside every group. |
| `TileMap.Print` | stroll_010/src/org/konelabs/stroll/gui/screens/PlayGameScreen.java:231-244 | Text goes to consecutive cells from (x, y), one tile per character (the code minus 32), running on into the next row. Every other cell is unchanged, and the text reads back from the map as written. Empty text writes nothing, at any position. |
| `TileMap.ClearCells` | stroll_010/src/org/konelabs/stroll/gui/screens/PlayGameScreen.java:84-87 | The first `bgWidth * bgWidth` cells become 0. The rest keep their tiles. |
| `TileMap.DrawWalls` | stroll_010/src/org/konelabs/stroll/gui/screens/PlayGameScreen.java:90-98 | Columns 0 and 11 of rows 0 .. 18 hold the wall tile, for any map width. No cell outside the two walls changes. |
| `TileMap.DrawFloor` | stroll_010/src/org/konelabs/stroll/gui/screens/PlayGameScreen.java:99-103 | Row 19 gets corner tiles at columns 0 and 11 and floor tiles in between. No other cell changes. |
| `TileMap.ClearAndBorder` | stroll_010/src/org/konelabs/stroll/gui/screens/PlayGameScreen.java:84-103 | Cells off the border are 0 inside the cleared square and unchanged outside it. The floor always holds its tiles. The walls hold theirs when the map is at least 12 cells wide. |
| `TileMap.WallsAreNotFloor` | stroll_010/src/org/konelabs/stroll/gui/screens/PlayGameScreen.java:90-103 | On a map at least 12 cells wide, the floor pass does not overwrite a wall cell. |
| `TileMap.FieldTargetRoundTrip` | stroll_010/src/org/konelabs/stroll/gui/screens/PlayGameScreen.java:106-119 | The map cell that shows a playfield block determines the block's column and row, as long as the column fits the map row. |
| `TileMap.DrawColumn` | stroll_010/src/org/konelabs/stroll/gui/screens/PlayGameScreen.java:107-118 | On a map of positive width, each block of a playfield column is drawn with its tile at (x + 1, 18 - y). Empty cells leave the map as it was. |
| `TileMap.DrawPlayfield` | stroll_010/src/org/konelabs/stroll/gui/screens/PlayGameScreen.java:106-119 | When the map row is non-empty and at least as wide as the playfield, each settled block shows its own tile at (x + 1, 18 - y). At any width, no cell that shows no block changes. |
| `TileMap.TargetsDistinct` | stroll_010/src/org/konelabs/stroll/gui/screens/PlayGameScreen.java:106-119 | Two different blocks of a playfield no wider than the map row are drawn to two different cells, even when the last column runs on into the next row. |
| `TileMap.DrawPiece` | stroll_010/src/org/konelabs/stroll/gui/screens/PlayGameScreen.java:122-137 | Every block of the piece inside map columns 0 .. 10 and rows 0 .. 18 shows the piece tile. Every other cell is unchanged. |
| `TileMap.PieceMayCoverLeftWall` | stroll_010/src/org/konelabs/stroll/gui/screens/PlayGameScreen.java:125-134 | The clip lets column 0 through: a block one column left of the playfield is drawn over the left wall. |
| `TileMap.FieldAvoidsBorder` | stroll_010/src/org/konelabs/stroll/gui/screens/PlayGameScreen.java:106-119 | On a map at least 12 cells wide, a playfield that fits the well never writes the floor or a wall. |
| `TileMap.PieceAvoidsFloorAndRightWall` | stroll_010/src/org/konelabs/stroll/gui/screens/PlayGameScreen.java:122-137 | On a map at least 12 cells wide, the piece never writes the floor or the right wall. |
| `TileMap.DrawFieldAndPiece` | stroll_010/src/org/konelabs/stroll/gui/screens/PlayGameScreen.java:105-137 | The piece is drawn over the settled blocks, and every cell it covers shows the piece tile. When the map row is non-empty and at least as wide as the playfield, every block shows its tile unless the piece covers it. Cells touched by neither are unchanged. |
| `TileMap.FloorSurvives` | stroll_010/src/org/konelabs/stroll/gui/screens/PlayGameScreen.java:99-137 | On a map at least 12 cells wide, with a playfield of at most 10 columns and 19 rows, the playfield and piece passes never overwrite the floor. |
| `TileMap.WallsSurvive` | stroll_010/src/org/konelabs/stroll/gui/screens/PlayGameScreen.java:91-137 | On a map at least 12 cells wide, with a playfield of at most 10 columns and 19 rows, the playfield and piece passes never overwrite the right wall. They overwrite the left wall only where the piece covers it. |
| `TileMap.ComposeTileMap` | stroll_010/src/org/konelabs/stroll/gui/screens/PlayGameScreen.java:84-137 | The map part of a play-screen frame. Every cell the falling piece covers shows the piece tile. Every other cell outside the border and the blocks is 0 inside the cleared square and unchanged outside it. On a map at least 12 cells wide, with a playfield of at most 10 columns and 19 rows: the floor and right wall show the border, the left wall shows it unless the piece covers it, and every settled block shows its tile unless the piece covers it. |

## Left out

- Threads, the 60 Hz pacer of `initializeThreads`, `Thread` priorities and Java's `wait`/`notify` are not modelled. A frame is one step. `start` reports how many render threads it spawns. `waitVBL` reports whether its caller is suspended. The wake-up is an event of the next frame.
- The race in which `stop()` followed at once by `start()` leaves two render loops running is concurrency and is not modelled.
- `stop` is modelled as happening either during a frame or between frames. Enabling or setting listeners in the middle of a frame, from a listener or another thread, is not modelled: the channels are read once per frame.
- `drawLayers`, `getLayer` and `getNumLayers` are abstract in the source. The layers' drawing is a parameter `Hook` that sees and replaces only the current line. It cannot see other lines, listeners or the display registers. So raster effects that an HBL listener performs by changing layer state are not modelled.
- The wait token is a single flag (`Display.waiter`). In the source, a second `waitVBL` before the next frame replaces the token object, and the first caller is never woken. The model does not track more than one waiter.
- `Render.Run` and `Render.ApplyAll` draw every frame with one fixed `Hook`. Layer state that changes from frame to frame, such as an animation, is not modelled. No contract depends on the hook staying the same.
- Listener and viewer calls are events in a trace. What the listeners do is not modelled.
- `isInitialized` is a parameter of `Display.Start`. The base class always returns true.
- `destroy` is an empty stub and is not modelled. Neither are the getters, which only read a register.
- Display.New: a width and height whose 32-bit product is non-negative but smaller than the true product give a buffer too small for the render loop. In the source that loop then throws an index exception. The model makes the loop require `Render.FrameFits` instead.
- Array index exceptions in the render loop, `print` and `handleFrame` are preconditions of the model, not error results. 32-bit overflow of `y * width` and of the tile-map index `cx + cy * bgWidth` is not modelled. For a buffer built by `Display.New` the former cannot occur.
- The PlayGameScreen constructor (asset loading, the camera, the Tetrion set-up), `handleMessage`, `driver.advanceFrame`, `camera.applyEffects` and the three status-line `print` calls of `handleFrame` are not modelled. The `Tetrion`, `Piece`, `Block` and `StrollDriver` classes and GuiManager are not part of this model. The playfield and the falling piece are plain data (`TileMap.Playfield`, `TileMap.Piece`).
- Tiles.ToUpper: only the code units whose upper case is an ASCII letter are mapped as `Character.toUpperCase` does. Every other code unit is returned unchanged, which the piece lookup cannot tell apart from its real upper case.
- Tiles.BlockIndex: a block whose shape is `null` makes the Java `switch` throw. The model's block always has a shape.
- TileMap.ComposeTileMap: takes the map width in tiles (`bgLayer.getWidth() / 8`). It states the border and block tiles only for a map at least 12 cells wide and a playfield of at most 10 columns and 19 rows. On narrower maps the border, playfield and piece cells overlap, and the result depends on write order.
- TileMap.DrawColumn: states the block tiles only on a map of positive width. At width 0 every block of the column lands on the same cell, x + 1.
- TileMap.DrawPlayfield: states each block's tile only when the map row is non-empty and at least as wide as the playfield. On a narrower row, blocks of different columns can land on the same cell, and the tile left there depends on write order.
- TileMap.DrawFieldAndPiece: states the block tiles only under the same width condition as `TileMap.DrawPlayfield`, for the same reason.
- TileMap.FloorSurvives and TileMap.WallsSurvive: hold only on a map at least 12 cells wide with a playfield of at most 10 columns and 19 rows. Otherwise the source does overwrite the border. On a 10-wide map, block (9, 0) of a 10-wide playfield lands on the floor corner. On a 16-wide map, block (10, 0) of an 11-wide playfield lands on the right wall.
- TileMap.ClearAndBorder: states the wall tiles only for a map at least 12 cells wide. On a narrower map the floor pass can overwrite wall cells.
