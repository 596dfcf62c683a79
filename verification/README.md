# Verified models of the fscript window manager and of two Bochs routines

A Dafny model of the parts of `ab/fscript` and `sim/bochs` whose correctness does
not show in any one function body, with proofs of what those parts promise.
`dafny verify dfyconfig.toml` checks everything.

**Tiled windows** (`Tiling`, `WindowOps`, `WindowCleanup`, `WindowTree`,
`WindowSplits`, `WindowChoice`, `WindowCreate`, `WindowReshape`, `WindowSizes`). Every
display shows a binary tree of split nodes and windows. `WindowTree` is the tree as it
lies in memory: nodes with parent, top and bottom pointers that `SplitWindow`,
`MoveSplit`, `DeleteWindow`, `DeleteNegativeWindow` and `AdjustWindow` change in place. A ghost `forest` holds, for
each display, the layout as a value; every method says exactly which layout results.
`WindowManager.Valid` is the invariant that each of them keeps: the links agree with
the layout and each layout tiles its screen. The other modules prove what the layouts
mean, extents being signed and minimum sizes a separate predicate.

**Key maps** (`KeyTrie`, `KeymapTree`, `KeymapCompiler`, `KeymapWriter`,
`KeyInterpreter`, `KeymapTheorem`, `KeymapFile`). Bindings are inserted into a tree of
tables in memory, the linked tables are written as a dictionary, offset tables and
strings, and a table-driven interpreter works on the file. The theorem is compiler
correctness, as an equivalence: the file does for all keystrokes what the tree says
exactly when there are at most thirty tables and at most four prefix keys in a
sequence, none of them NUL. `KeymapFile` puts the parts together and states it of the
lines of the key map.

**Raster engine and menus** (`FrameBuffer`, `RasterOp`, `RasterSave`, `Trapezoid`,
`LineClip`, `MenuStack`). The graphics board is a class of 1024 by 1024 pixels with
its address decoding, its coordinate registers and its one-word read FIFO
(`ab/fscript/framebuf.h`:60-115 and :169); driver code reaches the pixels through it
only. Overlapping block copy, bit-packed save and restore, trapezoid fill and the menu
stack are proved down to single pixels, for every raster function of source and
destination.

**Fonts** (`FontImage`, `FontNames`). Packing with shared parts and self-relative
16-bit offsets, unpacking, and the printed names of fonts.

**Graphics stream** (`GraphicsStream`). The client's encoder and the resumable decoder
of the window manager, in its own 200-byte argument buffer with its signed 8-bit
index.

**CRC-32** (`Crc`). The table-driven routine against the bit-serial division by the
generator polynomial of section 3.2.9 of IEEE Std 802.3-2012.

**Module list** (`ModuleList`). libltdl's reference-counted list and its shutdown loop.

`CInt` holds what C makes of integers: truncating division and two's complement.

Some properties that one would expect are false of the code. For each there is a
theorem with the exact condition: `MoveBackExact`, `SplitResultFits` (with two concrete
splits that leave a small window, `SplitOnePassFails` and `SecondSplitFails`),
`SplitThenDelete`, `ChosenSplitExact` (with `ChosenSplitTooNarrow`),
`MeaningPreserved`, `OffsetsLead`, `StreamExact`, `RoundTripExact`, `CutAccepted` and
`Modules.Open` (with `ReopenResident`).

## Model

| member | source | states |
|---|---|---|
| Tiling.AdjustIsLayout | ab/fscript/window.c:273-299 | Moving one edge of a tiled subtree gives the tiled layout of the moved rectangle: same tree, every split meeting at its old split value |
| Tiling.FlagsMean | ab/fscript/window.c:273-315 | Whatever the windows were before, the recursive mover raises the too-small flag exactly when some window changes its rectangle and is smaller than the minimum then |
| Tiling.FlagsExact | ab/fscript/window.c:273-315 | If all windows were large enough, exactly when one of them no longer is |
| Tiling.Partition | ab/fscript/window.c:273-299 | In a tiling every point of the display is in exactly one window and every other point in none |
| Tiling.DescendFinds | ab/fscript/window.c:100-110 | The cursor descent ends in a node that contains the point: the one window that does, or the split whose border is near |
| Tiling.DescendStops | ab/fscript/window.c:100-110 | The descent ends in a window if and only if the point is on no border, and otherwise in the outermost split whose border it is on; every border that it is on lies in the node found |
| Tiling.FitsMeans | ab/fscript/window.c:301-315 | A layout fits exactly when each of its nodes is at least 40 wide and 50 high |
| Tiling.SubstTiled | ab/fscript/window.c:387-408 | Replacing a subtree by a tiled one of the same rectangle keeps the whole tiling |
| WindowOps.DeleteKeeps | ab/fscript/window.c:205-271 | Deleting a node leaves a tiling of the same display, with exactly the node, its subtree and its parent gone |
| WindowOps.MoveKeeps | ab/fscript/window.c:157-177 | Moving any split keeps the tiling, the display rectangle and all nodes |
| WindowOps.MoveBack | ab/fscript/window.c:157-177 | A move by more than three pixels and the move back restore the whole tree |
| WindowOps.MoveGoesTo | ab/fscript/window.c:157-177 | A border between parts one above the other goes to the new y, one between parts side by side to the new x, both parts being laid out afresh; within three pixels, or if the node is no split, nothing moves |
| WindowOps.InsertKeeps | ab/fscript/window.c:343-408 | A split adds exactly the new window and its split node and keeps the tiling |
| WindowOps.InsertPlaces | ab/fscript/window.c:343-377 | The new window gets the room on its side of the position, up to the far edge, and the node that was cut is laid out in the room on the other side |
| WindowOps.InsertThenDelete | ab/fscript/window.c:205-408 | Deleting the new window right after the split restores every rectangle and link |
| WindowCleanup.CleanedKeeps | ab/fscript/window.c:178-203 | Repeated dropping of the first small node ends, every pass removing a live node, in a tiling without small windows or in an empty display |
| WindowCleanup.FirstSmallIsFirst | ab/fscript/window.c:189-203 | The node that a pass deletes is below the minimum and no node before it in preorder is |
| WindowCleanup.MoveFlagsExact | ab/fscript/window.c:157-187 | If all windows were large enough, a move raises the flag exactly when one of them no longer is |
| WindowCleanup.MoveAndCleanFits | ab/fscript/window.c:157-203 | Windows that were all large enough are so again after the move and its cleanup loop, and the display is not left empty |
| WindowCleanup.MoveBackExact | ab/fscript/window.c:157-203 | With cleanup, moving there and back restores the tree if and only if no window fell below the minimum on the way |
| WindowCleanup.OneDrop | ab/fscript/window.c:189-203 | When a single pass of dropping is enough for a resized subtree, in both directions |
| WindowCleanup.SplitOnePassExact | ab/fscript/window.c:409-415 | If the single cleanup pass of a split is run, it leaves all windows large enough if and only if at most one drop repairs the subtree that was cut |
| WindowSplits.CutFlagsExact | ab/fscript/window.c:350-377 | Cutting a node raises the flag exactly when its windows do not all fit in the room left to them |
| WindowSplits.SplitExact | ab/fscript/window.c:343-415 | A whole split, its pass being run only if the flag is up, leaves all windows of the display large enough if and only if one drop repairs the cut and a small new window does not already have its rectangle unnoticed |
| WindowSplits.SplitResultFits | ab/fscript/window.c:343-415 | The same over all displays, for the forest that SplitWindow is proved to make |
| WindowSplits.SecondSplitFails | ab/fscript/window.c:301-415 | Making the same split twice: the small new window is dropped the first time and stays the second time |
| WindowCleanup.SplitOnePassFails | ab/fscript/window.c:409-415 | A concrete split after which a window below the minimum remains |
| WindowTree.WindowManager.AdjustWindow | ab/fscript/window.c:273-299 | In place: every rectangle of the subtree becomes that of the specified layout, links and split values untouched, and the flag is raised exactly when specified |
| WindowTree.WindowManager.SetWindowSize | ab/fscript/window.c:301-315 | Only a window that changes size, and becomes too small, raises the flag |
| WindowTree.WindowManager.DeleteWindow | ab/fscript/window.c:205-271 | From any valid state: the node and its subtree are marked, the sibling takes the room and the parent's place, all other nodes and displays keep everything; the invariant holds again |
| WindowTree.WindowManager.DeleteNegativeWindow | ab/fscript/window.c:189-203 | Deletes the first node below the minimum in preorder and says whether there was one |
| WindowTree.WindowManager.CleanupPass | ab/fscript/window.c:181-186 | One pass over all displays, with the flag telling whether anything was dropped |
| WindowTree.WindowManager.MoveSplit | ab/fscript/window.c:157-187 | From any valid state: the split moves, the cleanup loop terminates, and the forest is the moved and cleaned one on every display |
| WindowTree.WindowManager.SplitWindow | ab/fscript/window.c:343-415 | Refused exactly when the position is not past the near edge; otherwise the forest is the one with the new window and one cleanup pass |
| WindowTree.WindowManager.CreateOnEmptyDisplay | ab/fscript/window.c:481-496 | The first empty display, if any, is filled by the window; nothing else changes |
| WindowTree.WindowManager.UnderCursor | ab/fscript/window.c:100-110 | The pointer walk finds the node that the descent on the layout finds; said of the nodes in memory, for windows without negative extents: a split exactly if the cursor is on a border of the display, and then one on whose border it is |
| WindowTree.MoveResultFits | ab/fscript/window.c:157-203 | Over all displays: windows that were large enough stay so through any move, no display becomes empty or changes its rectangle |
| WindowTree.MoveResultGoesTo | ab/fscript/window.c:157-187 | Over all displays: if no window becomes too small, the outcome of a move differs only in the split that was moved, whose border is at y or x according to its direction; at most three pixels change nothing |
| WindowTree.ScreenPartition | ab/fscript/window.c:157-416 | In every valid state, on a display without windows below the minimum, each point of the screen is in exactly one window |
| WindowSplits.SplitThenDelete | ab/fscript/window.c:205-415 | Over all displays, from any layouts: a whole split and deleting the new window give back every layout if and only if no pass was run or it dropped nothing but the new window |
| WindowSplits.SplitThenDeleteFits | ab/fscript/window.c:205-415 | If all windows were large enough: if and only if those of the cut node fit in the room left to them, or the new window comes first and is itself too small |
| WindowChoice.ContainerIsSmallest | ab/fscript/windowops.c:63-78 | A node holds the dragged rectangle if and only if it is the container found or lies around it |
| WindowChoice.HoldsCorners | ab/fscript/windowops.c:63-71 | A node holds the drag exactly if it contains the first and the last point of it |
| WindowChoice.CutCoversDrag | ab/fscript/windowops.c:80-119 | The chosen cut makes a new window that covers the drag, and adds the smaller gap beside it |
| WindowChoice.CutTakesSmallerGap | ab/fscript/windowops.c:102-118 | The window gets, along the cut, the drag and the smaller of the two gaps beside it |
| WindowChoice.CutDirection | ab/fscript/windowops.c:99-111 | The cut runs up and down only if the drag takes more of the height than of the width, and does so if that is more by a thousandth |
| WindowChoice.CutAccepted | ab/fscript/windowops.c:99-121 | The choice is refused if and only if the drag has no extent across the cut at the near edge of its container |
| WindowReshape.Reshape | ab/fscript/windowops.c:48-57 | A window with a process is taken off its display, the layouts being those of a deletion; anything else is left alone |
| WindowReshape.FindContainer | ab/fscript/windowops.c:63-78 | The recursion on the linked nodes finds the smallest container on the layout |
| WindowReshape.FinishReshape | ab/fscript/windowops.c:80-128 | In memory: from any valid state the drag ends in the split of the chosen cut, or changes nothing, exactly if there is no container or the cut is refused |
| WindowReshape.DragIs | ab/fscript/windowops.c:82-97 | The drag is spanned by the corners where it began and ended, in whatever order they lie |
| WindowReshape.DragIsShown | ab/fscript/windowops.c:80-128 | A reshaped window covers the rectangle that was drawn, nothing else is added or taken away and the other displays stay as they were, unless a window becomes too small |
| WindowChoice.OfferFits | ab/fscript/window.c:566-609 | An accepted split leaves the old window its minimum and gives the new one an extent between its limits |
| WindowChoice.OfferExact | ab/fscript/window.c:566-580 | There is an offer if and only if there is room for the minimum of the window and for that, or a smaller maximum, of the new one |
| WindowChoice.OfferCuts | ab/fscript/window.c:566-580 | The cut is at the part of the extent in proportion to the two maximums, or at the limit that keeps it from there |
| WindowChoice.OfferRanks | ab/fscript/window.c:580-600 | Between offers that do not give the new window its maximum the larger area costs more; one that does costs more than those for areas below 0x0c000000 |
| WindowChoice.Chooser.TrySplit | ab/fscript/window.c:566-609 | Takes the offer exactly when it beats the best one so far |
| WindowChoice.Chooser.ConsiderWindow | ab/fscript/window.c:622-638 | Both directions of a window are tried; the choice stays the first among the costliest of all candidates seen |
| WindowCreate.FindWindowToSplit | ab/fscript/window.c:613-642 | The recursion on the linked nodes sees exactly the candidates of the layout, in order |
| WindowCreate.SearchAll | ab/fscript/window.c:499-508 | The search over all displays starts afresh and keeps the first among the costliest candidates of all of them |
| WindowCreate.CreateBySplitting | ab/fscript/window.c:497-513 | In memory: the chosen window is split for the new one; nothing changes exactly if there is no candidate or the split is refused |
| WindowCreate.CreateWindow | ab/fscript/window.c:481-513 | The first empty display if there is one, and otherwise the best split; the invariant is kept |
| WindowCreate.SeenPromise | ab/fscript/window.c:507-508 | Every candidate that is seen belongs to a window of some display and respects its limits |
| WindowCreate.CostliestIs | ab/fscript/window.c:497-508 | The choice of all displays: a split that gives the new window its maximum comes before those that do not, and among those the largest area is taken |
| WindowCreate.LargestIsCut | ab/fscript/window.c:497-508 | If the choice does not give the new window its maximum, no window of any display that has room for the new one is larger than the one that is split |
| WindowChoice.BestStep | ab/fscript/window.c:600-608 | Keeping the better of two keeps the first maximum of a growing list |
| WindowChoice.CandidatesPromise | ab/fscript/window.c:613-642 | Every candidate, in both directions and whatever MinWidth is, respects the limits of both windows along the cut |
| WindowChoice.CandidateCost | ab/fscript/window.c:580-642 | The cost of each candidate of a display in terms of the area, the shape and the limits of its window |
| WindowChoice.CandidateCuts | ab/fscript/window.c:566-642 | Each candidate is a window with room, cut in proportion to the maximums as far as the limits allow |
| WindowChoice.RoomIsOffered | ab/fscript/window.c:613-642 | Each window with room is a candidate |
| WindowChoice.ChosenSplitExact | ab/fscript/window.c:497-513 | Splitting where the search says leaves every window of the display its minimum if and only if the extent across the cut, which the search does not compare, is enough for the new window |
| WindowChoice.ChosenSplitTooNarrow | ab/fscript/window.c:566-642 | A concrete display whose best and only candidate is too narrow for the new window |
| WindowSizes.MinimumIsTight | ab/fscript/windowops.c:168-192 | A rectangle is as large as the computed minimum if and only if some split positions give every window its minimum |
| WindowSizes.MaximumIsMinimum | ab/fscript/windowops.c:168-192 | Asked for maximums, the recursion gives the minimum of windows that cannot be smaller than their maximum |
| WindowSizes.SharesFit | ab/fscript/windowops.c:250-276 | When the sizes of a stack are positive, the shares never overrun the container, whichever threshold the second pass uses |
| WindowSizes.PrefixShares | ab/fscript/windowops.c:233-248 | The running split position never decreases and never passes the far edge |
| WindowSizes.PlanDivides | ab/fscript/windowops.c:250-276 | No share is divided by zero |
| WindowSizes.ShareIs | ab/fscript/windowops.c:243-245 | A small member gets its size and any other one the quotient of its part of the threshold, rounded down |
| WindowSizes.SharesExhaust | ab/fscript/windowops.c:250-276 | If no member changes its class between the passes, the shares leave less than a pixel for each member of the container |
| WindowSizes.EqualMembers | ab/fscript/windowops.c:250-276 | Any number of equal members: the borders are at multiples of their size if they take up at most half the container, and else of the equal part of the container |
| WindowSizes.StackMembers | ab/fscript/windowops.c:218-230 | The members of a stack of windows are their maximal extents along the stack, in order |
| WindowSizes.EqualColumn | ab/fscript/windowops.c:218-276 | A column or row of windows with equal maximums that do not fit twice is divided evenly |
| WindowSizes.Equalizer.SumWindowStackSizes | ab/fscript/windowops.c:218-230 | The two sums are those of the members below and not below the threshold, for stacks nested in any way |
| WindowSizes.Equalizer.AssignEqualizedSpace | ab/fscript/windowops.c:232-248 | The recursion moves the splits to the running sums of the shares, from the near edge on |
| WindowSizes.Equalizer.EqualizeStack | ab/fscript/windowops.c:250-276 | Both passes together: the moves made are the borders of the plan, and the arithmetic is defined when the sizes are positive |
| KeyTrie.InsertOk | ab/fscript/MakeLoadable.c:290-319 | Inserting keeps ranges tight around the entries in use and makes no empty table |
| KeyTrie.InsertBinds | ab/fscript/MakeLoadable.c:290-319 | Inserting binds the one sequence of keys and leaves every other one as it was |
| KeyTrie.ReadBinds | ab/fscript/MakeLoadable.c:257-275 | After all lines of a key map a sequence is bound to what its last line says, or not at all |
| KeyTrie.OverlapsExact | ab/fscript/MakeLoadable.c:183-190 | The compiler refuses exactly the key maps in which a bound sequence is a proper prefix of another |
| KeymapTree.GraftDown | ab/fscript/MakeLoadable.c:290-319 | In linked memory, replacing a table means replacing the entry of its parent's slot |
| KeymapTree.DownStep | ab/fscript/MakeLoadable.c:293-317 | One step of the walk down leaves the rest of the insertion to the table below |
| KeymapTree.NewStep | ab/fscript/MakeLoadable.c:303-317 | Making a missing table changes no meaning |
| KeymapTree.Bindings.InsertEntry | ab/fscript/MakeLoadable.c:290-319 | The loop over linked tables, in place, computes the insertion on values and keeps the parent links |
| KeymapTree.ReadLines | ab/fscript/MakeLoadable.c:257-275 | Reading lines one by one gives the table of all lines |
| KeymapWriter.Compiler.DictSize | ab/fscript/MakeLoadable.c:217-225 | The number of tables that will be written |
| KeymapWriter.Compiler.OffsetTableSize | ab/fscript/MakeLoadable.c:147-155 | The number of offsets that will be written |
| KeymapWriter.Hashcode | ab/fscript/MakeLoadable.c:197-202 | The walk along the parent links packs the prefix keys that lead to the table |
| KeymapWriter.WalkIsNode | ab/fscript/MakeLoadable.c:290-319 | The linked table that prefix keys lead to means the table they lead to in the tree |
| KeymapWriter.Compiler.DumpDict | ab/fscript/MakeLoadable.c:204-215 | Appends one packed entry for each linked table, in preorder |
| KeymapWriter.Compiler.DumpTable | ab/fscript/MakeLoadable.c:157-176 | Appends the offsets of all tables and advances the string offset by exactly what the strings will take |
| KeymapWriter.Compiler.DumpStrings | ab/fscript/MakeLoadable.c:179-195 | Appends all strings in the order of the offsets; fails exactly on overlaps |
| KeymapWriter.Compiler.Compile | ab/fscript/MakeLoadable.c:278-286 | The whole file, exactly when there are no overlaps |
| KeyInterpreter.RunAppend | ab/fscript/arbitrator.c:52-90 | Keystrokes can be cut into batches anywhere |
| KeyInterpreter.LoadAccepts | ab/fscript/arbitrator.c:250-260 | A file is used exactly if it has one to thirty tables and the keys of the first lie between 0 and 127 |
| KeyInterpreter.InputWindow.ProcessInput | ab/fscript/arbitrator.c:52-90 | What is sent and the new key state are those of the run over all waiting keys; a disabled window keeps both |
| KeyInterpreter.InputWindow.ProcessKey | ab/fscript/arbitrator.c:53-86 | The table scan with its running offset and the fall-through branch |
| KeymapTheorem.EntryWord | ab/fscript/MakeLoadable.c:157-176 | Every stored offset is the place where the string was written, -1 for a table, 0 for nothing |
| KeymapTheorem.DictWords | ab/fscript/MakeLoadable.c:204-286 | Where the dictionary is in the file: the number of tables, and for each table its packed prefix keys, its first key and the number of its keys |
| KeymapTheorem.EmitHash | ab/fscript/MakeLoadable.c:197-202 | A packed state gives back its prefix keys, hence tables are told apart |
| KeymapTheorem.StepAgrees | ab/fscript/arbitrator.c:52-90 | One keystroke on the file does what the tree prescribes |
| KeymapTheorem.MeaningPreserved | ab/fscript/MakeLoadable.c:147-225 | The file and the tree agree on all keystroke sequences if and only if there are at most thirty tables and every path has at most four keys, none NUL |
| KeymapTheorem.GoodBindings | ab/fscript/MakeLoadable.c:197-202 | The condition on paths in terms of the bound sequences |
| KeymapFile.TablesArePrefixes | ab/fscript/MakeLoadable.c:217-319 | There is one table for each sequence of prefix keys in the lines |
| KeymapFile.LinesDecide | ab/fscript/MakeLoadable.c:183-190 | Whether the compiler refuses, and whether the file keeps the meaning, said of the lines |
| KeymapFile.LinesPreserved | ab/fscript/MakeLoadable.c:257-286 | For lines that are not ambiguous the file agrees with them on all keystrokes if and only if they are manageable |
| KeymapFile.TextTranslated | ab/fscript/arbitrator.c:52-90 | Typed text is translated by the file to what the last lines say, piece by piece |
| KeymapFile.Translate | ab/fscript/MakeLoadable.c:257-286 | Reading the lines, compiling, loading and typing, one after the other, sends exactly that |
| KeymapTheorem.TextRuns | ab/fscript/arbitrator.c:52-90 | Typed text is translated piece by piece: bound sequences give their strings, dead ones pass through in order, the state resets |
| FrameBuffer.Board.Read | ab/fscript/framebuf.h:167-171 | A read returns the word fetched by the read before it, and fetches at the addressed registers, wrapping round at the right |
| FrameBuffer.Board.Write | ab/fscript/framebuf.h:60-115 | A write decodes its address: it loads a register, maybe the source, and updates the leftmost pixels only |
| FrameBuffer.DecodeBeyond | ab/fscript/sun1bw.c:265-268 | What an access just above or just below the board loads instead |
| RasterOp.StripUp | ab/fscript/sun1bw.c:342-363 | One strip with a primed read, source below or level: every pixel gets the value its source had before |
| RasterOp.StripDown | ab/fscript/sun1bw.c:364-385 | The same from the bottom up |
| RasterOp.ClipBoth | ab/fscript/sun1bw.c:305-336 | Clipping keeps exactly the offsets visible in both rectangles |
| RasterOp.MoveRight | ab/fscript/sun1bw.c:341-385 | Strips from left to right equal a copy from a snapshot when the source is not left of the destination |
| RasterOp.MoveLeft | ab/fscript/sun1bw.c:386-438 | Strips from right to left do so in the other case |
| RasterOp.BWRasterOp | ab/fscript/sun1bw.c:290-439 | For every two rectangles, overlapping or not, with extents of any sign: each visible destination pixel is combined once with its source's value before the call, and nothing else changes |
| RasterSave.IndexBelowSize | ab/fscript/sun1bw.c:1330-1332 | Every word index is below half the computed size, and the last pixel needs all of it |
| RasterSave.SaveWords | ab/fscript/sun1bw.c:1019-1066 | First word, whole words and last word with their masks save exactly the rectangle, for every skew |
| RasterSave.BWCopyScreenToMemory | ab/fscript/sun1bw.c:993-1067 | Memory holds the visible pixels and keeps everything else; the screen is unchanged |
| RasterSave.BWCopyMemoryToScreen | ab/fscript/sun1bw.c:920-983 | Exactly the visible pixels of the rectangle are combined with memory |
| MenuStack.VisibleMenu.Reserve | ab/fscript/menu.c:273-279 | The save area is large enough whether it is kept or replaced |
| MenuStack.VisibleMenu.Save | ab/fscript/menu.c:256-284 | The save area holds what the screen shows under the menu |
| MenuStack.VisibleMenu.Restore | ab/fscript/menu.c:235-243 | If only pixels under the menu changed, the screen is again the saved picture |
| MenuStack.Menus.DrawMenu | ab/fscript/menu.c:248-313 | Anything may be drawn in the menu; what was there before is remembered |
| MenuStack.Menus.DropMenu | ab/fscript/menu.c:232-246 | Dropping down to menu k brings back the screen as it was before menu k, through any number of stacked menus |
| MenuStack.Session | ab/fscript/menu.c:231-316 | After any sequence of drawing and dropping, dropping all menus gives back the original screen |
| Trapezoid.StepEdge | ab/fscript/sun1bw.c:893-906 | The inner loops keep position and error term on the exact edge |
| Trapezoid.OnEdgeIs | ab/fscript/sun1bw.c:893-906 | The stepped position is the truncated quotient for every row |
| Trapezoid.EdgesOrdered | ab/fscript/sun1bw.c:780-913 | The left edge never passes the right one, whatever their slopes |
| Trapezoid.LastRow | ab/fscript/sun1bw.c:780-913 | In the last row both edges are exactly at the lower corners |
| Trapezoid.UprightKeeps | ab/fscript/sun1bw.c:523-538 | Making a shape upright keeps both horizontal edges as sets of pixels; they change places exactly if the first was the lower one |
| Trapezoid.CoversEdges | ab/fscript/sun1bw.c:780-913 | The first and the last row that are covered are the two edges |
| Trapezoid.StepTile | ab/fscript/sun1bw.c:898-901 | The tile boundary stays the first one at or after the left edge |
| Trapezoid.PaintRow | ab/fscript/sun1bw.c:849-889 | A row paints each pixel between the edges once, the pattern aligned to multiples of 16 |
| Trapezoid.Slanted | ab/fscript/sun1bw.c:847-912 | All rows of a slanted shape, the pattern row following y |
| Trapezoid.Rectangle | ab/fscript/sun1bw.c:788-846 | The two special loops for rectangles paint the same |
| Trapezoid.BWFillTrapezoid | ab/fscript/sun1bw.c:494-913 | The whole fill of an unclipped shape, for every raster function |
| LineClip.CutBetween | ab/fscript/sun1bw.c:181-192 | A cut lies between the ends of the segment for every sign of the operands |
| LineClip.Cut | ab/fscript/sun1bw.c:176-193 | No division by zero; the coordinate that was outside is inside after the cut, and the point is less than a pixel from the line of the segment being cut |
| LineClip.Clip | ab/fscript/sun1bw.c:160-204 | At most four cuts, each moving one end of the segment before it by less than a pixel off its line; an accepted segment lies in the view port, within the original bounding box and in its direction; an end inside is never moved and never rejected |
| FontImage.PlaceHolds | ab/fscript/fontmanip.c:165-245 | Every record, shared or not, is found at the place its offset was computed from |
| FontImage.FirstMatchIs | ab/fscript/fontmanip.c:168-207 | A record is shared with the first earlier equal one, and written if there is none |
| FontImage.GenericPlaces | ab/fscript/font.h:51-65 | The ten shorts of a generic record, in the order of the structure |
| FontImage.SpecificPlaces | ab/fscript/font.h:66-77 | The signed and unsigned bytes of a specific record and the bitmap behind the padding |
| FontImage.SameSpecific | ab/fscript/fontmanip.c:184-206 | Comparing fields and words is comparing written records |
| FontImage.OffsetsLead | ab/fscript/fontmanip.c:213-233 | The stored self-relative shorts lead to the records if and only if the offsets fit |
| FontImage.UnpackPacked | ab/fscript/fontmanip.c:8-27 | Reading the packed file gives back generic part, specific part and every bitmap word |
| FontImage.HeaderBack | ab/fscript/fontmanip.c:234-236 | The header bytes are read back |
| FontImage.FilePlaces | ab/fscript/fontmanip.c:213-236 | Where magic number, common length, picture type and the two offsets of each character are in the file, to the byte |
| FontImage.FontEditor.FindSpecific | ab/fscript/fontmanip.c:184-206 | The comparison loops find the first equal record |
| FontImage.FontEditor.MatchAll | ab/fscript/fontmanip.c:165-207 | The match tables are those of the specification and the count is the space of the generic parts |
| FontImage.FontEditor.AssignOffsets | ab/fscript/fontmanip.c:209-227 | The running offsets are the places of the records |
| FontImage.FontEditor.RelateOffsets | ab/fscript/fontmanip.c:228-233 | The second loop makes all but the last character's offsets relative, in 16 bits |
| FontImage.FontEditor.ImplodeFont | ab/fscript/fontmanip.c:162-245 | The file is, byte for byte, the specified one |
| FontImage.FontEditor.ExplodeFont | ab/fscript/fontmanip.c:8-27 | Each of the characters 0 to 126 becomes what the file says of it, or empty |
| FontImage.FontEditor.PackAndUnpack | ab/fscript/fontmanip.c:8-245 | The round trip changes no character whose offsets fit, and no header byte |
| FontNames.FormatFontname | ab/fscript/fontnaming.c:17-39 | The printed name, in lower case |
| FontNames.FaceOrder | ab/fscript/fontnaming.c:27-34 | The face letters are bold, italic, fixed width and shadow, in that order and each at most once |
| FontNames.PrintedShape | ab/fscript/fontnaming.c:17-37 | A plain font that is not rotated is printed as family and height alone; a rotation follows the height behind the letter r |
| FontNames.DecimalIs | ab/fscript/fontnaming.c:27-30 | Heights and rotations are printed in decimal notation, with a minus sign if negative |
| FontNames.FontName.Parse | ab/fscript/fontnaming.c:41-79 | The fields and the error count are those of the specification, 8- and 16-bit arithmetic included |
| FontNames.ParseAccepts | ab/fscript/fontnaming.c:41-79 | Any name is parsed without errors if and only if everything behind the family is a face letter, the letter r, or a digit of the height or of a rotation |
| FontNames.RoundTripExact | ab/fscript/fontnaming.c:17-79 | Parsing a printed name gives it back without errors if and only if the family is lower-case letters and neither height nor rotation is negative |
| FontNames.CapitalsAreLost | ab/fscript/fontnaming.c:35-37 | Other alphabetic families come back in lower case |
| FontNames.PrintAndParse | ab/fscript/fontnaming.c:17-79 | The same of the two routines one after the other |
| GraphicsStream.Client.Send | ab/fscript/usergraphics.c:108-125 | Appends the encoding of the call |
| GraphicsStream.CallBytes | ab/fscript/usergraphics.c:108-125 | The bytes of a call: the operation with the high bit set, each argument low byte first, the string with its NUL if the operation has one |
| GraphicsStream.FeedAppend | ab/fscript/towindow.c:201-725 | The decoder is resumable: feeding two pieces is feeding their concatenation |
| GraphicsStream.IdleByte | ab/fscript/towindow.c:573-665 | A window that awaits no arguments draws bytes 1 to 7 and 14 to 127, obeys 0 and 8 to 13, and takes the others for opcodes, of which there are 55 |
| GraphicsStream.OperationsByArity | ab/fscript/graphicops.c:3-62 | The number of arguments of every operation, and which have a string |
| GraphicsStream.Window.ToWindow | ab/fscript/towindow.c:201-725 | One read: state and effects are those of the byte-wise decoder |
| GraphicsStream.Deliver | ab/fscript/towindow.c:201-725 | Every way of cutting a stream into reads has the same effect |
| GraphicsStream.DecodeCall | ab/fscript/towindow.c:201-211 | A call that fits is decoded, whatever the buffer held before |
| GraphicsStream.NeverDecoded | ab/fscript/towindow.c:201-211 | A call whose bytes run past the index's range is never the next to be carried out |
| GraphicsStream.StreamExact | ab/fscript/towindow.c:201-725 | A stream of text, control characters and calls is decoded to exactly itself if and only if every call fits |
| GraphicsStream.Converse | ab/fscript/towindow.c:201-725 | The same for the decoder with any cutting into reads |
| Crc.ClockBitIsShift | sim/bochs/crc.cc:39-51 | Clocking in a bit is a shift with the bit added at the top |
| Crc.TableStep | sim/bochs/crc.cc:62-63 | One table step is eight clocks of the register |
| Crc.ByteStepsAreSerial | sim/bochs/crc.cc:41-65 | A message byte by byte is the message bit by bit |
| Crc.Crc32.InitTable | sim/bochs/crc.cc:41-51 | Every one of the 256 entries is the shifted index |
| Crc.Crc32.Compute | sim/bochs/crc.cc:53-66 | The result is the bit-serial CRC of the message, the table being complete at every use and built only once |
| Crc.ShiftBijection | sim/bochs/crc.cc:47-48 | The step of the register can be undone |
| Crc.PolynomialTerms | sim/bochs/crc.cc:39-48 | The generator by its exponents |
| Crc.ChecksumOfA | sim/bochs/crc.cc:53-66 | The checksum of a message of one letter |
| Crc.BurstDetected | sim/bochs/crc.cc:53-66 | Two messages that differ within four consecutive bytes have different checksums |
| ModuleList.CountedOpenNew | sim/bochs/ltdl.c:2935-2947 | A module that was not listed keeps all counts equal to opens minus closes when it is put on the list |
| ModuleList.CountedCloseLast | sim/bochs/ltdl.c:3364-3384 | Taking a module off at its last close keeps them, too |
| ModuleList.Modules.TryAll | sim/bochs/ltdl.c:1905-1982 | A listed module of that name counts once more, otherwise the new handle is taken if it can be loaded |
| ModuleList.Modules.Register | sim/bochs/ltdl.c:2938-2947 | Putting a new handle in front links and counts it; doing so with a listed one makes a ring of the list |
| ModuleList.Modules.Open | sim/bochs/ltdl.c:1905-1982 | The invariant (distinct names, counts of opens minus closes, at least one unless resident, links that end) holds afterwards if and only if opens minus closes of that name were not -1; otherwise the module comes first, the old list hangs behind it, and the links lead round and round. A listed module counts once more, a new one is put in front, a failed open changes nothing |
| ModuleList.ReopenResident | sim/bochs/ltdl.c:2935-2947 | The input: made resident, closed twice and opened again, a module is its own successor and is seen again after any number of steps of the shutdown's first loop |
| ModuleList.Modules.Close | sim/bochs/ltdl.c:3335-3397 | One reference less; the last close of a module that is not resident unlinks it; an unknown handle is an error; the invariant is kept |
| ModuleList.Modules.Unlink | sim/bochs/ltdl.c:3366-3375 | The links skip the handle and no other |
| ModuleList.Modules.Pass | sim/bochs/ltdl.c:1843-1864 | One level closes something or shows that every count is above the level, which bounds the number of levels |
| ModuleList.DropLeadingIs | sim/bochs/ltdl.c:1837-1840 | What the first loop of the shutdown skips: all leading resident modules and no other |
| ModuleList.Modules.Exit | sim/bochs/ltdl.c:1837-1865 | As long as the invariant holds, the level loop terminates and leaves exactly the resident modules, without the leading ones |
| ModuleList.Modules.Shutdown | sim/bochs/ltdl.c:1815-1882 | Only the last of several calls shuts down |

## Left out

Windows
- Drawing, zoom animation, focus, redraw marks (`Changed`, `TotallyChanged`, `KnowsAboutChange`) and the derived `SubViewPort`, `BasicSubViewPort` and `ModeViewPort`.
- `AutomaticEqualization`: off, its default at `ab/fscript/window.c`:837.
- An empty display is passed over by the cleanup loop, where the code would follow a null pointer.
- The one-bit field `SplitHorizontally` is read as 0 or 1.
- WindowTree.WindowManager.DeleteWindow: for a window that is in no tree it requires that the window is not visible, as it then has no parent.
- WindowTree.WindowManager.MoveSplit: a null target is not part of the model.
- WindowSizes.Equalizer.EqualizeStack: works on a layout value and gives the list of moves; that a move may clean up windows while the stack is being equalized is not modelled.
- WindowChoice.ContainerIsSmallest: requires windows of non-negative extent, as they are whenever no cleanup is pending.
- WindowChoice.Chooser.TrySplit: requires that the two maximal extents have a positive sum, by which the code divides; 32-bit overflow of areas is not modelled.
- WindowCreate.CreateWindow: sets no display pointer, does not zoom, and takes the limits of windows as a function.
- WindowReshape.FinishReshape: requires that the window being reshaped is on no display, as it is after `Reshape`; its static variables are parameters and locals, and the showing of the process afterwards is not modelled.

Key maps
- Reading words and escapes of a line, key ranges such as `a-z`, and file input and output.
- The order of bytes in a word; words and characters of the file are kept apart, and memory beyond the file reads as zero.
- The 500-byte buffer of `ProcessInput` and the end of its input.

Raster engine
- RasterOp.BWRasterOp: without a view port both rectangles must lie on the board, as the hardware demands.
- RasterSave.BWCopyScreenToMemory: requires a visible part; with an empty clip the code goes on with a non-positive width or height.
- MenuStack.Session: menus that cannot be seen are not drawn, for the same reason; texts and borders are assumed to stay within the menu, and `CursorDown` is not modelled.
- FrameBuffer.Board.Write: that a width of zero paints nothing is an assumption about the board, on which only rectangles of width zero depend.
- The loops of sixteen statements are plain loops; raster functions of the mask register are left out.
- Trapezoid.BWFillTrapezoid: patterns 16 pixels wide and shapes that need no clipping; the clipping recursion (`ab/fscript/sun1bw.c`:544-779) carries an assertion that its author marks as failed.
- LineClip.Clip: integers are unbounded, and the drawing of the clipped line is left out.
- `BWRasterSmash`, `BWDrawString`, and the earlier copies of these algorithms in `rasterop.c` and `vec.c`.

Fonts
- The file name, backup and opening of the font file, and the clearing of the family name behind its NUL.
- The number of specific parts, which the code counts and does not use; the padding byte of a specific part is zero.
- FontImage.FontEditor.ExplodeFont: a bitmap is read as the words that its size asks for; memory beyond the file reads as zero.
- Version 0 fonts and bounding boxes.
- FontNames.RoundTripExact: face codes beyond the four flags, and families or rotations that overrun the buffers.

Graphics stream
- What the operations do; a decoded call is an event, and a run of text is a list of characters.
- The look-ahead for newlines, which depends on the cutting into reads, and the capture into a cut buffer after `GR_WRITETOCUTBUFFER`.
- The window manager's own replies.

CRC
- A length that is not that of the buffer beyond what `Compute` requires of its caller.

Module list
- Dependencies, search paths and `.la` files; the loaders are parameters.
- What is done to the loaders at shutdown, error strings and locking.
- ModuleList.Modules.Exit: the number of errors is not specified.
