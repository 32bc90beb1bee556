# Verified model of the feed's hard logic

This project models seven pieces of logic of an OpenWrt package feed in Dafny and proves what each of them is for.
`dafny verify dfyconfig.toml` checks all of it.

1. **Levelled parallel module loader.** `ModuleGraph`, `Buckets` and `LevelledFile` model the Python side: dependency
   closure by depth-first search, tree heights by recursion, buckets by height and the file of "Height n" blocks.
   `ParallelLoader` models the C side as a step relation, one action an atomic step of a worker thread, of `main` or of
   a child process: any number of workers share one reader, the reader lock is held across the barrier, and `wait(NULL)`
   reaps any child. `LoadOrder` joins the two: what the dictionary leads to is loaded first, in every interleaving;
   and with `LoaderRuns`, which builds runs, it says exactly when all reported dependencies are. Recursion depth is a
   parameter (`limit`, the interpreter's frames); dependency maps are arbitrary.
2. **ION buffer allocator.** `IonList` is the circular doubly linked list through a header, with its pointer writes;
   `IonAllocator` the reference-counted context whose list represents a plain sequence of live buffers;
   `IonTranslation` that sequence, both address translations in 32-bit arithmetic, and runs of calls; `IonLife` what a
   buffer's owner is answered between its palloc and its pfree. What the kernel and malloc answer are parameters.
3. **Autosuspend.** A controller and the suspend thread share one semaphore token, with the wakeup-count handshake
   against the kernel, as a step relation; `AutosuspendProgress` has what the calls and the loop bring about in it.
4. **minui.** `PixelGeometry` has the pixel positions and pointer steps under four rotations and what painting a
   rectangle means; `Minui` the packed blending and the drawing calls that change a pixel buffer in place; `Rotations`
   what each rotation turns them into; `FontRuns` the run-length font encoder and decoder.
5. **YUV repacking.** `Repack` and `RepackYuyv` have the conversions as loops over arrays, measured against the picture
   each layout shows; `RepackColours` the colours in it.
6. **SMART data.** `SmartBlob` has the blob writer and the two-pass reader, `SmartLayout` the bytes between them;
   `SmartStrings` the in-place string normalisers; `SmartVerdict` the attribute table, its cache and the verdict,
   `SmartMeaning` what each verdict says of the table; `SmartRaise` when a rising count makes the verdict milder.
7. **Two text machines.** `Numerals`, `GrokRadix`, `NumberGrammar` and `GrokNumber` have the overflow-exact numeral
   scanners, for 32-bit and 64-bit UVs, `RadixSpelling` and `NumberFlags` what they read in a string; `PkgDetails` has
   the stanza scanner with its hundred names a pass, `PkgAnswers` what each name is to get and that it gets it,
   `PkgExactness` exactly when, `PkgOwn` when the fields it gets are those of its own stanza, and `PkgText` the way from
   the text of a stanza to its output.

Where the code falls short of what one would expect of it, the code is modelled as it is and the exact condition is
proved:

- the generator's bucket lookup misses, at height 1, exactly when the targets are the listed modules and all of them
  have dependencies; for the closed early list it never misses;
- with two or more workers (the program starts four) a module can overtake a dependency reported for it exactly when
  both are written and the module was not listed;
- ROTATION_RIGHT puts exactly one pixel behind rows of exactly `width` pixels;
- `sk_disk_get_blob` fails its own size assertion exactly when asking for the status makes the thresholds valid;
- a disk below 1024 bytes is condemned by a count of zero, and a rising count can make the verdict milder exactly when
  it becomes a misreading whose stand-in lies on the other side of a limit;
- `grok_oct` loses digits exactly behind an underscore in front of a 0;
- `grok_number` sets the overflow flag for too large integers exactly when there is no exponent;
- a name repeated within a hundred, or the empty name, is exactly what keeps `pkgdetails` from giving, on every file,
  each name the details at the end of its first surviving stanza;
- these details are the stanza's own exactly when each field the stanza lacks is empty in the buffers: a missing field
  is carried over from an earlier stanza or from a buffer that was never written, so a stanza's own details are printed
  whatever stands before it exactly when it holds all its fields;
- lines of a Packages file are told apart by their headers exactly when the name of the checksum field does not collide
  with another field's;
- a restored blob refuses its status at the first request and gives it at the second exactly when its IDENTIFY data have
  SMART available but not enabled;
- NV21ToYV12 overwrites a U sample exactly when half the pixel count is odd and there are at least 4 pixels;
- buffers are found from their physical bytes exactly when no physical range starts at 0 or reaches the top.

## Model

| member | source | states |
|---|---|---|
| ModuleGraph.Record.GetAllDependencies | allwinner/common/parallel_insmod/files/modparse.py:67-72 | On any finite dependency map, cycles included, the depth-first walk terminates (the entries missing from the record fall), only appends, appends only modules reachable from the start, keeps the record free of duplicates, and leaves every dependency of the start and of every new entry in it |
| ModuleGraph.Record.Closure | allwinner/common/parallel_insmod/files/modparse.py:67-72 | Started with an empty record, the walk leaves a duplicate-free list of exactly the modules reachable by one or more dependency edges |
| ModuleGraph.ClosedHoldsReachable | allwinner/common/parallel_insmod/files/modparse.py:67-72 | A record closed under dependencies holds everything at the end of any dependency chain, whatever its length |
| ModuleGraph.ChainsFitHeight | allwinner/common/parallel_insmod/files/modparse.py:121-128 | No dependency chain from a module has more nodes than its tree height |
| ModuleGraph.HeightIsAttained | allwinner/common/parallel_insmod/files/modparse.py:121-128 | Some dependency chain has exactly as many nodes as the tree height, so the height is the node count of the longest chain |
| ModuleGraph.OutOfFrames | allwinner/common/parallel_insmod/files/modparse.py:121-128 | If the recursion runs out of its frames there is a chain longer than the frames |
| ModuleGraph.MoreFramesSameHeight | allwinner/common/parallel_insmod/files/modparse.py:121-128 | The height does not depend on how many frames are left over |
| ModuleGraph.TerminatesIffAcyclic | allwinner/common/parallel_insmod/files/modparse.py:121-128 | `get_tree_height` returns, given more frames than the map has entries, if and only if no cycle is reachable; with a cycle no number of frames is enough |
| ModuleGraph.HeightsFallAlongChain | allwinner/common/parallel_insmod/files/modparse.py:121-128 | Heights fall strictly along every dependency chain |
| LevelledFile.IsBuildin | allwinner/common/parallel_insmod/files/modparse.py:43-50 | The scan answers true exactly for the names in the builtin list, and false without a builtin file |
| LevelledFile.FillBuckets | allwinner/common/parallel_insmod/files/modparse.py:95-103 | The loop fills one bucket per height with the targets of that height in target order and finds the greatest height; it fails exactly when some target's height recursion does not return |
| LevelledFile.GenerateDependencyTrees | allwinner/common/parallel_insmod/files/modparse.py:88-119 | The outcome for every input: recursion error exactly when a height is unknown; otherwise a key error at the lowest height without a target; otherwise the file. In the file every module has as many lines as it is a target, none if it is builtin; its height's lines come in target order, heights in rising order, and the k-th header says k. When the targets are the listed modules the key error occurs if and only if there are targets and each has dependencies, and always at height 1; for closed targets it never occurs |
| LevelledFile.HeightsKnownIffAcyclic | allwinner/common/parallel_insmod/files/modparse.py:88-103 | With enough frames all heights are known exactly when no target reaches a cycle |
| LevelledFile.ListedTargetsLeaveNoGapIff | allwinner/common/parallel_insmod/files/modparse.py:105-117 | When the targets are the listed modules (the main call), every height from 2 to the maximum has a target, and the bucket lookup never misses if and only if some target has no dependencies or there is no target |
| LevelledFile.ClosedTargetsLeaveNoGap | allwinner/common/parallel_insmod/files/modparse.py:105-117 | When the targets are closed under their dependencies (the early call), every height from 1 to the maximum has a target, so the bucket lookup never misses |
| LevelledFile.OpenTargetsCanLeaveGap | allwinner/common/parallel_insmod/files/modparse.py:105-117 | Without closure it can: one target with one unlisted dependency has height 2 and nobody has height 1 |
| LevelledFile.EarlyModules | allwinner/common/parallel_insmod/files/modparse.py:134-140 | The early list holds exactly the early modules and everything they reach |
| LevelledFile.EarlyModulesAreClosed | allwinner/common/parallel_insmod/files/modparse.py:134-164 | The early list is closed under dependencies, so its own file never misses a bucket |
| Buckets.BucketsAreStableSort | allwinner/common/parallel_insmod/files/modparse.py:95-117 | The concatenated buckets are a permutation of the targets, sorted by height, with equal heights in target order |
| LevelledFile.LineLevelIsHeight | allwinner/common/parallel_insmod/files/modparse.py:110-117 | A module line of the file stands after exactly as many headers as its module's height, and is a non-builtin target |
| LevelledFile.TargetsAreWritten | allwinner/common/parallel_insmod/files/modparse.py:110-117 | Every non-builtin target is written |
| LevelledFile.BlocksSortTargets | allwinner/common/parallel_insmod/files/modparse.py:105-117 | The written blocks, read off line by line, are the non-builtin targets stably sorted by height, below headers numbered 1 to the maximum |
| ParallelLoader.StepPreserves | allwinner/common/parallel_insmod/src/parallel_insmod.c:63-141 | Every atomic step of every thread, of `main` and of every child keeps the invariant (lock owners, counter = carried + unreaped + reaped-but-not-put, line accounting, barrier), and `wait(NULL)` never finds itself without a child |
| ParallelLoader.RunKeepsInv | allwinner/common/parallel_insmod/src/parallel_insmod.c:63-178 | The invariant holds in every state of every run, for any file and any number of workers |
| ParallelLoader.WaitHasChild | allwinner/common/parallel_insmod/src/parallel_insmod.c:124-136 | A thread in `wait(NULL)` always has some child to reap, although others may reap its own |
| ParallelLoader.QuietMeansReaped | allwinner/common/parallel_insmod/src/parallel_insmod.c:79-86 | When the thread at the barrier has seen the counter at zero, every module line read so far has been started, has exited and has been reaped |
| ParallelLoader.OneSleeper | allwinner/common/parallel_insmod/src/parallel_insmod.c:68-83 | At most one thread waits on the condition variable, so one signal is enough |
| ParallelLoader.NoDeadlock | allwinner/common/parallel_insmod/src/parallel_insmod.c:63-141 | In every reachable state before `main` has joined all threads, some step other than a spurious wake-up is enabled (children being able to exit) |
| ParallelLoader.StepMeasure | allwinner/common/parallel_insmod/src/parallel_insmod.c:63-178 | A measure falls on every step but a spurious wake-up, which raises it by two |
| ParallelLoader.RunIsBounded | allwinner/common/parallel_insmod/src/parallel_insmod.c:63-178 | Every run has at most 16 steps a line and 6 a worker, plus three for each spurious wake-up |
| ParallelLoader.EarlierLevelsAreReaped | allwinner/common/parallel_insmod/src/parallel_insmod.c:79-101 | When a worker is about to start insmod for a line, every module line after fewer headers has been reaped |
| ParallelLoader.StuckMeansComplete | allwinner/common/parallel_insmod/src/parallel_insmod.c:113-178 | A state in which nothing but a spurious wake-up can happen is complete: all threads joined, file read, each module line handed out exactly once in file order, every child reaped, counter zero |
| ParallelLoader.ModuleIndicesExact | allwinner/common/parallel_insmod/src/parallel_insmod.c:70-100 | The sequence handed out has exactly the module lines, each once, in increasing order |
| LoadOrder.DependenciesLoadFirst | allwinner/common/parallel_insmod/src/parallel_insmod.c:113-141 | End to end, for any worker count and any interleaving over the generated file: when insmod of a module starts, every line of each module it reaches in the dictionary, by one edge or many, has exited and been reaped, and each of these that is a non-builtin target has such a line |
| LoadOrder.ReportedLoadFirstIff | allwinner/common/parallel_insmod/files/modparse.py:88-119 | With any number of workers every run over the file loads every dependency the commands report before its module if each written target with a written dependency is in the module list, so that its dependencies were asked for; with any number from two on, the program's four included, only if |
| LoadOrder.UnlistedOvertakes | allwinner/common/parallel_insmod/src/parallel_insmod.c:113-141 | For a written target outside the module list and any written dependency of it, and any number of workers from two on, some run of that many workers starts the target before the dependency has been inserted |
| LoadOrder.GeneratedFileLoads | allwinner/common/parallel_insmod/files/modparse.py:88-119 | Generator and loader composed: whenever a file is generated the equivalence holds for it with the program's four workers and with any other number from two on, and when the targets are the listed modules any number keeps the reported order |
| LoadOrder.UnlistedEarlyModule | allwinner/common/parallel_insmod/files/modparse.py:134-164 | The early call can be a failing case: two early modules with an edge, of which only the second is listed, with any number of workers from two on |
| LoaderRuns.CanOvertake | allwinner/common/parallel_insmod/src/parallel_insmod.c:63-141 | Of two module lines with no header between them either can be about to start while the other has not been reaped, in a run, constructed step by step, of any number of workers from two on |
| LoadOrder.EveryTargetIsLoaded | allwinner/common/parallel_insmod/src/parallel_insmod.c:113-178 | End to end: a run that cannot go on has inserted every non-builtin target, and `cur_height` is the maximum height |
| IonList.InitHead | allwinner/common/libawion/src/ion_alloc_list.h:55-57 | The header alone is a circle |
| IonList.AddTail | allwinner/common/libawion/src/ion_alloc_list.h:59-79 | The four pointer writes turn the circle into the one with the new node last, links in both directions |
| IonList.Bypassed | allwinner/common/libawion/src/ion_alloc_list.h:81-93 | A circle of distinct nodes with one node bypassed is the circle without that node |
| IonList.Del | allwinner/common/libawion/src/ion_alloc_list.h:81-93 | Joining the neighbours removes exactly that node and leaves a circle |
| IonAllocator.Allocator.Open | allwinner/common/libawion/src/ion_alloc.c:103-170 | An open context gains a reference and keeps its buffers; a first open gives an empty list and count 1, or -1 and no context |
| IonAllocator.Allocator.Palloc | allwinner/common/libawion/src/ion_alloc.c:228-410 | On success the buffer is appended to the sequence of live buffers and its address returned; on every failure the sequence is as it was |
| IonAllocator.Allocator.Pfree | allwinner/common/libawion/src/ion_alloc.c:412-500 | The first live buffer at that address leaves the sequence, all others keep their order; anything else changes nothing |
| IonAllocator.Allocator.Remove | allwinner/common/libawion/src/ion_alloc.c:467-468 | Unlinking and freeing one node removes exactly its buffer from the sequence and frees no other node |
| IonAllocator.Allocator.FreeAll | allwinner/common/libawion/src/ion_alloc.c:181-188 | Deleting while iterating visits and frees every node exactly once (freeing twice is excluded by precondition) and ends with the header alone |
| IonAllocator.Allocator.Close | allwinner/common/libawion/src/ion_alloc.c:172-206 | Only the last close frees the nodes, all of them, and drops the context; any other close only takes a reference away |
| IonAllocator.Allocator.FirstEntry | allwinner/common/libawion/src/ion_alloc.c:433-492 | The walk over the circle stops at the first live buffer that satisfies the test, or at the header |
| IonAllocator.Allocator.Vir2PhyCpu | allwinner/common/libawion/src/ion_alloc.c:502-530 | The walk over the list computes the translation of the abstract sequence, 0 for NULL |
| IonAllocator.Allocator.Phy2VirCpu | allwinner/common/libawion/src/ion_alloc.c:532-562 | The walk over the list computes the reverse translation, 0 for NULL |
| IonAllocator.Allocator.GetBufferFd | allwinner/common/libawion/src/ion_alloc.c:564-602 | The descriptor of the first buffer that covers the address, 0 for none |
| IonAllocator.Allocator.GetVirAddrByFd | allwinner/common/libawion/src/ion_alloc.c:604-631 | The address of the first buffer shared through the descriptor, 0 for none |
| IonTranslation.TranslationsAreInverse | allwinner/common/libawion/src/ion_alloc.c:502-562 | For live buffers with disjoint, nonzero, non-wrapping ranges the translations undo each other on every byte of every buffer |
| IonTranslation.Vir2PhyZeroOutside | allwinner/common/libawion/src/ion_alloc.c:502-530 | `vir2phy` gives 0 exactly on addresses outside every live buffer |
| IonTranslation.Phy2VirZeroOutside | allwinner/common/libawion/src/ion_alloc.c:532-562 | `phy2vir` gives 0 exactly on addresses outside every live buffer |
| IonTranslation.PhysicalRangesMustNotWrap | allwinner/common/libawion/src/ion_alloc.c:532-562 | Among any live buffers with disjoint ranges, all are found again from all their physical bytes if and only if every physical range starts above 0 and ends below the top of the 32-bit address space |
| IonTranslation.FirstByteLost | allwinner/common/libawion/src/ion_alloc.c:532-562 | Of a buffer whose physical range starts at 0 or reaches the top, the first byte is not found |
| IonTranslation.RunKeepsTranslations | allwinner/common/libawion/src/ion_alloc.c:228-562 | The inverse translations survive every run of palloc and pfree whose grants are fresh |
| IonLife.PallocServes | allwinner/common/libawion/src/ion_alloc.c:228-410 | After a granted palloc every byte of the buffer gets the granted descriptor and both translations, and the descriptor leads back to the address unless another live buffer has it |
| IonLife.ServedUntilFreed | allwinner/common/libawion/src/ion_alloc.c:228-631 | Over every run with fresh grants all this holds from the palloc until the pfree at that address, whatever is allocated and freed beside it; right after that pfree no byte of the range is answered for |
| IonLife.PfreeTakesOne | allwinner/common/libawion/src/ion_alloc.c:412-500 | A pfree takes away the buffer at its address and no other |
| Autosuspend.StepKeepsInv | allwinner/power/nativepower/libsuspend/autosuspend_wakeup_count.c:50-138 | Every step keeps: semaphore value + token of the suspend thread + token in transit matches the enabled flag; a post never meets a full semaphore |
| Autosuspend.RunKeepsInv | allwinner/power/nativepower/libsuspend/autosuspend.c:72-117 | The token invariant holds in every state of every run with one controller |
| Autosuspend.NoSuspendWhileDisabled | allwinner/power/nativepower/libsuspend/autosuspend_wakeup_count.c:66-97 | From any state in which suspending is disabled until the next enable posts its token nothing is written to the power state, and the suspend thread holds no token |
| Autosuspend.NoSuspendAfterDisable | allwinner/power/nativepower/libsuspend/autosuspend.c:95-117 | The same from every disable that returns 0 on, whether it took the token or found suspending disabled already |
| Autosuspend.StaysQuiet | allwinner/power/nativepower/libsuspend/autosuspend.c:95-117 | Disabled stays disabled until an enable posts |
| Autosuspend.MemWriteFollowsHandshake | allwinner/power/nativepower/libsuspend/autosuspend_wakeup_count.c:50-90 | Each write of the sleep state follows, in the same iteration, a read of wakeup_count, the token, and an accepted write of the value read; no wakeup event fell between that read and the acceptance |
| Autosuspend.LatestOwnAction | allwinner/power/nativepower/libsuspend/autosuspend_wakeup_count.c:50-98 | Where the suspend thread stands, it was put by its latest own action |
| Autosuspend.DisableIsNotStuck | allwinner/power/nativepower/libsuspend/autosuspend_wakeup_count.c:92-138 | A blocked disable waits only for a suspend thread that holds the token, can move, and comes nearer to posting it with each own move |
| AutosuspendProgress.EnableEnables | allwinner/power/nativepower/libsuspend/autosuspend.c:72-93 | Whatever the suspend thread and the kernel do in between, the controller's next two moves after a call of enable with suspending disabled post one token and set the flag; then suspending is enabled, with one token where there was none |
| AutosuspendProgress.EnableCanPost | allwinner/power/nativepower/libsuspend/autosuspend_wakeup_count.c:99-117 | At every moment between the call and the post the controller can post, and can do nothing else |
| AutosuspendProgress.EnableCanSet | allwinner/power/nativepower/libsuspend/autosuspend.c:72-93 | The same between the post and the flag; the post has added exactly one token |
| AutosuspendProgress.DisableDisables | allwinner/power/nativepower/libsuspend/autosuspend.c:95-117 | The moves after a call of disable take the one token and clear the flag, unless the wait is interrupted |
| AutosuspendProgress.DisableCanWait | allwinner/power/nativepower/libsuspend/autosuspend_wakeup_count.c:119-138 | Until then the controller can take the token exactly when the suspend thread does not hold it |
| AutosuspendProgress.NothingToDo | allwinner/power/nativepower/libsuspend/autosuspend.c:72-117 | Calls that fail to initialise or find nothing to do, and an interrupted wait, leave flag and token as they were |
| AutosuspendProgress.LoopOrder | allwinner/power/nativepower/libsuspend/autosuspend_wakeup_count.c:50-98 | In every run the suspend thread's own actions follow each other as the loop says: an accepted count is followed by the write of the sleep state, that by the callback, that by the post |
| AutosuspendProgress.SuspenderCanMove | allwinner/power/nativepower/libsuspend/autosuspend_wakeup_count.c:50-98 | The suspend thread is never stuck but for the token |
| AutosuspendProgress.EnabledMeansSuspending | allwinner/power/nativepower/libsuspend/autosuspend_wakeup_count.c:50-98 | While suspending is enabled, with no call and no wakeup event, the thread can always go on without a failure, and the sleep state is written by every sixth of its actions from the fourth on |
| PixelGeometry.SteppingAgrees | feeds/libs/libminui/src/graphics.cpp:84-117 | Stepping the pointer right or down agrees with stepping the coordinates, for all four rotations and all geometries |
| PixelGeometry.PixelsAreDistinct | feeds/libs/libminui/src/graphics.cpp:47-50 | Distinct pixels of the screen lie in distinct cells, for all four rotations |
| PixelGeometry.AllInBoundsIffRoomy | feeds/libs/libminui/src/graphics.cpp:102-117 | All pixels of a non-empty screen lie inside its data if and only if the rows are at least `width` long, and longer than `width` under ROTATION_RIGHT, whose columns run from 1 to `width` |
| PixelGeometry.RectInBoundsIff | feeds/libs/libminui/src/graphics.cpp:102-117 | With rows at least `width` long, a rectangle on screen lies inside the data unless it holds the pixel (height - 1, 0) under ROTATION_RIGHT with rows of exactly `width` |
| Minui.Graphics.DrawableIff | feeds/libs/libminui/src/graphics.cpp:215-279 | So the drawing calls stay inside the data for exactly the other rectangles |
| PixelGeometry.PaintBoth | feeds/libs/libminui/src/graphics.cpp:215-237 | Painting two disjoint rectangles one after the other paints their union: each pixel once, every other cell untouched |
| PixelGeometry.PaddingIsNotCovered | feeds/libs/libminui/src/graphics.cpp:102-117 | Cells of the row padding belong to no pixel, so painting leaves them alone |
| Rotations.DownTurns | feeds/libs/libminui/src/graphics.cpp:84-117 | Under ROTATION_DOWN painting a rectangle is painting, without rotation, the rectangle turned by half, each pixel by what falls on it |
| Rotations.LeftTurns | feeds/libs/libminui/src/graphics.cpp:84-117 | Under ROTATION_LEFT the rectangle turned by a quarter |
| Rotations.RightTurns | feeds/libs/libminui/src/graphics.cpp:84-117 | Under ROTATION_RIGHT the rectangle turned by a quarter the other way, one column further |
| Rotations.FillDown | feeds/libs/libminui/src/graphics.cpp:215-237 | So filling under ROTATION_DOWN leaves the same data as filling (width - x2, height - y2, width - x1, height - y1) without rotation |
| Rotations.FillLeft | feeds/libs/libminui/src/graphics.cpp:215-237 | The same under ROTATION_LEFT with (y1, height - x2, y2, height - x1) |
| Rotations.FillRight | feeds/libs/libminui/src/graphics.cpp:215-237 | The same under ROTATION_RIGHT with (width - y2 + 1, x1, width - y1 + 1, x2) |
| Rotations.ScreenTurns | feeds/libs/libminui/src/graphics.cpp:47-50 | The screen turns into the surface, under ROTATION_RIGHT one column further than it |
| Rotations.AcceptedIff | feeds/libs/libminui/src/graphics.cpp:215-223 | A rectangle with pixels is drawn if and only if, moved by the overscan, it lies on the screen, whose sides a quarter turn exchanges |
| Minui.BlendIsMean | feeds/libs/libminui/src/graphics.cpp:66-82 | The packed blend is, in each colour channel, the floor of the alpha-weighted mean, with the current colour's alpha on top; for every colour, pixel and alpha |
| Minui.NoWrap | feeds/libs/libminui/src/graphics.cpp:66-82 | No product and no sum of the packed blend wraps at 32 bits |
| Minui.Graphics.Fill | feeds/libs/libminui/src/graphics.cpp:215-237 | Exactly the rectangle's pixels change, each once, to the weighted mean; a rectangle not wholly on screen changes nothing. Required is only that the rectangle's pixels lie inside the data |
| Minui.Graphics.TextIcon | feeds/libs/libminui/src/graphics.cpp:119-133 | Exactly the glyph's pixels change, each blended under its stencil alpha |
| Minui.Graphics.Blit | feeds/libs/libminui/src/graphics.cpp:239-279 | Exactly the destination rectangle's pixels change, each to the source pixel at the same place, in the rotated loop and in the row copies alike |
| Minui.Graphics.Clear | feeds/libs/libminui/src/graphics.cpp:197-213 | Every pixel of the surface takes the current colour and padding is untouched, through memset or through the loops |
| Rotations.FillCells | feeds/libs/libminui/src/graphics.cpp:215-237 | Without rotation the cell in each row and column of the data becomes, inside the rectangle, the weighted mean in each channel under the colour's own alpha, and stays as it is outside |
| Rotations.GlyphCells | feeds/libs/libminui/src/graphics.cpp:119-133 | The same for a glyph, under the glyph byte at the same place times the colour's alpha over 255 |
| Rotations.BlitCells | feeds/libs/libminui/src/graphics.cpp:239-279 | The same for a blit: the source pixel as far from (sx, sy) as the cell from the corner |
| FontRuns.Encode | feeds/libs/libminui/src/mkfont.c:27-50 | For every non-empty image: no emitted run byte is the terminator, the run bytes decode to the thresholded bitmap, and no string of nonzero bytes that decodes to it is shorter |
| FontRuns.ClosedRunCostsOne | feeds/libs/libminui/src/mkfont.c:35-41 | Where the encoder closes a run, every encoding needs one more byte |
| FontRuns.Unpack | feeds/libs/libminui/src/graphics.cpp:337-342 | The decoder stops at the terminator, writes exactly the pixels the run bytes stand for, and nothing behind them |
| FontRuns.RoundTrip | feeds/libs/libminui/src/mkfont.c:27-50 | A font image survives being encoded and unpacked, pixel by pixel |
| FontRuns.RunMeans | feeds/libs/libminui/src/mkfont.c:35-41 | Each run byte stands for as many pixels as its low seven bits say, set when its top bit is |
| Repack.NV21ToRGB24 | allwinner/vision/camerademo/src/convert.c:592-632 | For all sizes whose last chroma sample the input holds: every access is in bounds, the output starts with the RGB image of the picture in NV21 layout and goes on as it was; refused arguments change nothing |
| Repack.YUV420ToRGB24 | allwinner/vision/camerademo/src/convert.c:328-367 | The same for U before V in separate planes |
| Repack.YV12ToRGB24 | allwinner/vision/camerademo/src/convert.c:634-675 | The same for V before U in separate planes |
| Repack.NV21ToYU12 | allwinner/vision/camerademo/src/convert.c:51-81 | For all sizes: luma copied, U and V de-interleaved to their planes, nothing else of the output written |
| Repack.NV21ToYV12 | allwinner/vision/camerademo/src/convert.c:15-49 | For all sizes: luma copied, V de-interleaved to its plane, U to its plane but for what V overwrites, nothing else of the output written |
| Repack.FirstUSampleIff | allwinner/vision/camerademo/src/convert.c:15-49 | When half the pixel count is odd, the first U sample survives if and only if the last V sample, which takes its place, equals it |
| Repack.UPlaneKeptIff | allwinner/vision/camerademo/src/convert.c:15-49 | The whole U plane is kept for every frame of n pixels if and only if n/2 is even or n is below 4 |
| Repack.TwoByThreeLosesU | allwinner/vision/camerademo/src/convert.c:15-49 | A failing size: of a frame of 2 by 3 pixels the only U sample is replaced by the last V sample |
| Repack.RepackedPicture | allwinner/vision/camerademo/src/convert.c:15-81 | De-interleaved chroma shows the same picture: the RGB images are equal for every even-sized frame |
| Repack.FourWays | allwinner/vision/camerademo/src/convert.c:15-81 | NV21 converted directly, through YU12 and through YV12 gives byte for byte the same RGB buffer |
| Repack.AllFitIffLastFits | allwinner/vision/camerademo/src/convert.c:328-672 | For every size, even or odd, all accesses of a conversion are in bounds if and only if the last pixel's chroma samples are |
| Repack.EvenSizesFit | allwinner/vision/camerademo/src/convert.c:328-672 | For even sizes a buffer of 3/2*w*h bytes is enough in each of the layouts |
| Repack.OddSizesMayNotFit | allwinner/vision/camerademo/src/convert.c:592-632 | For odd sizes it need not be: a frame of one pixel needs three bytes in NV21 |
| Repack.ChromaInBounds | allwinner/vision/camerademo/src/convert.c:592-632 | For even sizes the chroma index of every pixel is below a quarter of the pixel count |
| RepackColours.BytesOfPixel | allwinner/vision/camerademo/src/convert.c:592-632 | The three bytes of a pixel are blue, green and red of the linear conversion with neutral chroma at 128, to within 3, unless cut off at 0 or 255 |
| RepackColours.Nv21Shows | allwinner/vision/camerademo/src/convert.c:592-632 | From bytes to bytes: in the output of NV21ToRGB24 each pixel shows its luma byte with the V and U bytes of its two-by-two block, V first |
| RepackYuyv.YUYVToRGB24 | allwinner/vision/camerademo/src/convert.c:408-443 | The output starts with the RGB image of the packed picture and goes on as it was; an odd pixel count still reads a whole last group |
| RepackYuyv.YUYVToNV21 | allwinner/vision/camerademo/src/convert.c:88-134 | Luma is every other byte, U comes from even rows and V from odd rows, for all sizes |
| RepackYuyv.EveryByteIsWritten | allwinner/vision/camerademo/src/convert.c:88-134 | For even sizes luma, U and V together cover every byte of the 3/2*w*h output, each from its one source byte |
| RepackYuyv.Nv21ShowsSamePictureIff | allwinner/vision/camerademo/src/convert.c:88-134 | Going through NV21 shows the same pixels as direct conversion if and only if each pair of rows shares its chroma; the RGB images are then the same too |
| RepackColours.YuyvShows | allwinner/vision/camerademo/src/convert.c:408-443 | In the output of YUYVToRGB24 each pixel shows its own luma byte with the U and V bytes of its group of four, U first |
| SmartBlob.EntriesOfEncoded | feeds/libs/libatasmart/src/atasmart.strpool.c:3025-3235 | Reading back encoded entries gives the entries |
| SmartBlob.NtohlHtonl | feeds/libs/libatasmart/src/atasmart.strpool.c:3051-3062 | The length word of an entry survives the network byte order |
| SmartBlob.Disk.SmartStatus | feeds/libs/libatasmart/src/atasmart.strpool.c:1057-1105 | What asking for the status answers and what it does to the disk: thresholds become valid exactly when SMART was uninitialised and its tables can be read |
| SmartBlob.Disk.GetBlob | feeds/libs/libatasmart/src/atasmart.strpool.c:3025-3100 | The bytes written are those of the valid entries; the final size assertion fails if and only if asking for the status makes the thresholds valid, and then by 520 bytes, because the size is computed first |
| SmartBlob.Disk.MayLearn | feeds/libs/libatasmart/src/atasmart.strpool.c:2890-2924 | That can happen only on a device with SMART that has not been initialised: never once initialised, never on a blob disk |
| SmartBlob.Disk.SetBlob | feeds/libs/libatasmart/src/atasmart.strpool.c:3102-3235 | For arbitrary bytes the reader terminates; it accepts exactly non-empty readable blobs with IDENTIFY whose known entries are of the right size and not repeated; a refusal changes nothing (a blob without IDENTIFY leaves the negative of ENODATA in errno); acceptance sets all flags and tables as the entries say |
| SmartBlob.Verify | feeds/libs/libatasmart/src/atasmart.strpool.c:3120-3190 | The first pass accepts exactly the acceptable blobs and finds which tables are there |
| SmartBlob.Disk.Load | feeds/libs/libatasmart/src/atasmart.strpool.c:3190-3235 | After the first pass has accepted, the second pass meets no bad length and copies every table |
| SmartBlob.WrittenIsAcceptable | feeds/libs/libatasmart/src/atasmart.strpool.c:3025-3235 | What is written for a disk with valid IDENTIFY is accepted by the reader |
| SmartBlob.SaveAndRestore | feeds/libs/libatasmart/src/atasmart.strpool.c:3025-3235 | For every disk with IDENTIFY: saving succeeds unless asking for the status makes the thresholds valid; whenever it succeeds, a fresh blob disk loaded with the bytes has the tables, the validity flags and the status the disk has after the save; for an initialised or blob disk it always succeeds and the tables are those from before |
| SmartLayout.SavedBytes | feeds/libs/libatasmart/src/atasmart.strpool.c:3025-3100 | The saved bytes in full: the valid tables in their order at their offsets, each behind its four-letter tag and its length |
| SmartLayout.SavedWords | feeds/libs/libatasmart/src/atasmart.strpool.c:3025-3100 | The four tags in letters; the length of a table is written 0 0 2 0, and the status as the word 1 or 0 |
| SmartLayout.LengthsAreBigEndian | feeds/libs/libatasmart/src/atasmart.strpool.c:3051-3062 | The length words are big-endian |
| SmartLayout.AskedAgain | feeds/libs/libatasmart/src/atasmart.strpool.c:1057-1078 | Asking for the status again, with whatever other replies, makes nothing more valid, and an answer once given is given again |
| SmartLayout.SecondAnswerIff | feeds/libs/libatasmart/src/atasmart.strpool.c:1057-1078 | On a blob disk the second answer is the first if and only if the disk had been asked before, has no SMART, has it enabled, or has no status; otherwise the first request fails and the second succeeds |
| SmartStrings.SwapIsInvolution | feeds/libs/libatasmart/src/atasmart.strpool.c:1161-1170 | Swapping byte pairs twice gives the text back |
| SmartStrings.SwappedAt | feeds/libs/libatasmart/src/atasmart.strpool.c:1161-1170 | Each byte comes from the other place of its pair |
| SmartStrings.SwapStrings | feeds/libs/libatasmart/src/atasmart.strpool.c:1161-1170 | In place, exactly the first len bytes are swapped pairwise |
| SmartStrings.CleanStrings | feeds/libs/libatasmart/src/atasmart.strpool.c:1172-1178 | Exactly the unprintable bytes before the terminator become spaces |
| SmartStrings.DropSpaces | feeds/libs/libatasmart/src/atasmart.strpool.c:1180-1203 | In place, the text becomes its words joined by single spaces; the write position never passes unread input |
| SmartStrings.DropStep | feeds/libs/libatasmart/src/atasmart.strpool.c:1186-1200 | One byte keeps: what is written is the squeezed form of what is read, in no more room |
| SmartStrings.WordsOfJoin | feeds/libs/libatasmart/src/atasmart.strpool.c:1180-1203 | Joined words split into the same words again |
| SmartStrings.SpacePartsWords | feeds/libs/libatasmart/src/atasmart.strpool.c:1180-1203 | A space parts a text into two, whose words are all its words, in order |
| SmartStrings.SqueezeIsIdempotent | feeds/libs/libatasmart/src/atasmart.strpool.c:1180-1203 | Squeezing twice is squeezing once, and the result has no space at either end and no two in a row |
| SmartStrings.ReadString | feeds/libs/libatasmart/src/atasmart.strpool.c:1205-1211 | For any bytes of even length the result is the squeezed, cleaned, swapped text: printable, without leading, trailing or doubled space |
| SmartVerdict.FindThreshold | feeds/libs/libatasmart/src/atasmart.strpool.c:2101-2149 | The assessment follows the first threshold of the attribute: only values and thresholds from 1 to 0xFD count, and bad means not above |
| SmartVerdict.AssessIsFall | feeds/libs/libatasmart/src/atasmart.strpool.c:2101-2149 | An attribute is bad now if and only if its present value is at least 1 and at most the first threshold entry of its id, that being from 1 to 0xFD; in the past, if and only if its worst value is |
| SmartVerdict.Disk.ParseAttributes | feeds/libs/libatasmart/src/atasmart.strpool.c:2151-2206 | After the 30 slots the cache describes them: which kinds occur, and the greatest counts |
| SmartVerdict.AbsorbDescribes | feeds/libs/libatasmart/src/atasmart.strpool.c:2347-2371 | Absorbing one parsed attribute keeps the cache a description of the slots seen |
| SmartVerdict.Disk.FillCache | feeds/libs/libatasmart/src/atasmart.strpool.c:2373-2382 | The cache is filled at most once and is then a description of the slots |
| SmartVerdict.Disk.GetBad | feeds/libs/libatasmart/src/atasmart.strpool.c:2384-2404 | The bad-sector count is the greatest reallocated plus the greatest pending value; ENOENT exactly when there is no table or neither kind |
| SmartVerdict.SectorsFit | feeds/libs/libatasmart/src/atasmart.strpool.c:2396-2401 | The sum cannot exceed 64 bits |
| SmartVerdict.U64Log2 | feeds/libs/libatasmart/src/atasmart.strpool.c:2425-2438 | r with 2^r <= n < 2^(r+1) for every n >= 1, and 0 for 0 |
| SmartVerdict.Disk.GetOverall | feeds/libs/libatasmart/src/atasmart.strpool.c:2440-2499 | With a good self-assessment the result is the verdict on the table; the error cases and the failed self-assessment exactly |
| SmartVerdict.VerdictIsMostSevere | feeds/libs/libatasmart/src/atasmart.strpool.c:2440-2499 | The verdict on a table is the most severe condition that holds of whatever describes its slots, and nothing else is |
| SmartMeaning.VerdictSays | feeds/libs/libatasmart/src/atasmart.strpool.c:2440-2499 | Each of the five verdicts on any table, as an if-and-only-if on its slots: pre-failure slots at or below their thresholds now or at worst, and the greatest counts of attributes 5 and 197 against 1024 for each doubling of the size |
| SmartMeaning.RawIsLittleEndian | feeds/libs/libatasmart/src/atasmart.strpool.c:1357-1386 | Raw counts are little-endian |
| SmartVerdict.PermutationKeepsVerdict | feeds/libs/libatasmart/src/atasmart.strpool.c:2151-2499 | Tables whose slots are permutations of each other get the same verdict |
| SmartVerdict.VerdictIsMonotone | feeds/libs/libatasmart/src/atasmart.strpool.c:2440-2499 | More bad sectors, another bad flag or a failed self-assessment never makes the verdict milder |
| SmartVerdict.ReadingFallsIff | feeds/libs/libatasmart/src/atasmart.strpool.c:1443-1463 | A larger raw count is taken as a smaller one if and only if it is implausible for the disk's size, the smaller is plausible, and the number of the unknown unit, which replaces it, is below the smaller |
| SmartRaise.NeverMilderIff | feeds/libs/libatasmart/src/atasmart.strpool.c:1443-2499 | Raising a raw count from n to m never makes the verdict milder, on any table and setting, if and only if a condition on n, m, the disk's size and the number of the unknown unit holds |
| SmartRaise.OneRiseKeepsVerdict | feeds/libs/libatasmart/src/atasmart.strpool.c:1443-2499 | The half that holds: any slot of any table of 30, any thresholds and quirks |
| SmartRaise.RiseMildens | feeds/libs/libatasmart/src/atasmart.strpool.c:1443-2499 | The half that fails: a table and a slot for every other n and m |
| SmartRaise.MoreSectorsMilder | feeds/libs/libatasmart/src/atasmart.strpool.c:1443-2499 | An input: on a disk of 2048 sectors a count that rises from 1000 to 10000 turns a disk with bad sectors into a good one |
| SmartVerdict.TinyDiskIsCondemned | feeds/libs/libatasmart/src/atasmart.strpool.c:2464-2472 | A table whose counts are 0 gets the many-sectors verdict if and only if the size is below 1024 bytes, where the limit is 0 |
| SmartRaise.ZeroCounts | feeds/libs/libatasmart/src/atasmart.strpool.c:2464-2472 | A table of 30 slots with which a disk of any size below 1024 bytes is condemned and any larger one is good |
| GrokRadix.GrokBin | feeds/lang/perl-xml-parser/patches/010-xml-parser-expat-use-ppport.h:6806-6888 | The value of the digits when it fits in a UV, else UV_MAX and the overflow flag, which is set if and only if it does not fit; the characters consumed exactly |
| GrokRadix.GrokHex | feeds/lang/perl-xml-parser/patches/010-xml-parser-expat-use-ppport.h:6908-6990 | The same in base 16 with its optional x prefix |
| GrokRadix.GrokOct | feeds/lang/perl-xml-parser/patches/010-xml-parser-expat-use-ppport.h:7010-7083 | The same in base 8 |
| GrokRadix.Scan | feeds/lang/perl-xml-parser/patches/010-xml-parser-expat-use-ppport.h:6830-6880 | The loop they share: one comparison per digit decides overflow, without any intermediate wrap |
| GrokRadix.DigitsOfWritten | feeds/lang/perl-xml-parser/patches/010-xml-parser-expat-use-ppport.h:6806-7083 | Scanning written digits gives back those digits and uses every character |
| GrokRadix.NumeralsReadBack | feeds/lang/perl-xml-parser/patches/010-xml-parser-expat-use-ppport.h:6806-7083 | The numeral of every value, in each base, is read back as that value |
| GrokRadix.OctalDigitsIff | feeds/lang/perl-xml-parser/patches/010-xml-parser-expat-use-ppport.h:7021-7065 | The octal scanner takes the digits one would expect if and only if within the characters these take no underscore stands directly in front of a 0, whose digit value 0 it takes for no digit |
| GrokRadix.UnderscoreBeforeZero | feeds/lang/perl-xml-parser/patches/010-xml-parser-expat-use-ppport.h:7050-7056 | The failing input: `grok_oct` reads 1_0 as 1 and stops behind the 1, `grok_bin` reads 2 |
| GrokRadix.OtherDigitsArePlain | feeds/lang/perl-xml-parser/patches/010-xml-parser-expat-use-ppport.h:6833-6980 | The binary and the hexadecimal scanner always take them |
| RadixSpelling.ReadIffSpelt | feeds/lang/perl-xml-parser/patches/010-xml-parser-expat-use-ppport.h:6806-7083 | Digits are read off the first n characters if and only if these spell them (a character in either case for each, with at most one allowed underscore in front, in octal not in front of 0) and no further digit follows |
| RadixSpelling.NumeralIsScanned | feeds/lang/perl-xml-parser/patches/010-xml-parser-expat-use-ppport.h:6806-7083 | Behind an allowed prefix (b or 0b, x or 0x) the spelled digits give the reported value and flag, and prefix and digits are what is consumed |
| NumberGrammar.ParseIsSound | feeds/lang/perl-xml-parser/patches/010-xml-parser-expat-use-ppport.h:6592-6780 | What is read is a well-formed numeral and is the whole string |
| NumberGrammar.ParseIsComplete | feeds/lang/perl-xml-parser/patches/010-xml-parser-expat-use-ppport.h:6592-6780 | Every well-formed numeral (spaces, sign, digits with radix and fraction, infinity or nan, exponent, spaces) is read back as it was put together, so no string is two numerals |
| GrokNumber.ScanInteger | feeds/lang/perl-xml-parser/patches/010-xml-parser-expat-use-ppport.h:6622-6708 | The nine unchecked digits and the checked tail give the exact value, and the overflow flag if and only if it exceeds UV_MAX |
| GrokNumber.NineDigits | feeds/lang/perl-xml-parser/patches/010-xml-parser-expat-use-ppport.h:6625-6683 | Nine decimal digits cannot overflow a 32-bit UV |
| GrokNumber.GrokNumber | feeds/lang/perl-xml-parser/patches/010-xml-parser-expat-use-ppport.h:6592-6780 | For every string: the flags and value of the numeral it is, 0 for the one excepted string, refusal otherwise |
| GrokNumber.IntegersAreExact | feeds/lang/perl-xml-parser/patches/010-xml-parser-expat-use-ppport.h:6592-6780 | Digits alone, however signed and padded: in-UV and the exact value when it fits, greater-than-UV when it does not, no other flag but the sign |
| GrokNumber.GreaterIffTooLarge | feeds/lang/perl-xml-parser/patches/010-xml-parser-expat-use-ppport.h:6592-6780 | The overflow flag is set if and only if the integer digits exceed UV_MAX and there is no exponent, which wipes it |
| GrokNumber.RefusedIffNoNumeral | feeds/lang/perl-xml-parser/patches/010-xml-parser-expat-use-ppport.h:6592-6780 | 0 is returned if and only if the string is neither a numeral nor the excepted string |
| NumberFlags.FlagsSay | feeds/lang/perl-xml-parser/patches/010-xml-parser-expat-use-ppport.h:6592-6780 | The flags of an accepted string read off its characters: negative if and only if it starts with a minus, an integer if and only if all else is digits and spaces, infinite if and only if it has an f, not a number if and only if it has an a, with a value if and only if it has neither these nor an e and is not too large |
| PkgDetails.PrintPackages | feeds/admin/debootstrap/files/pkgdetails.c:318-324 | The loop over the arguments, a hundred at a time, prints what the passes over the hundreds print, in order, each argument in exactly one |
| PkgDetails.PrintChunk | feeds/admin/debootstrap/files/pkgdetails.c:129-214 | One pass, early exit included, prints the output that is given as a function of the file and the names |
| PkgDetails.FindSlot | feeds/admin/debootstrap/files/pkgdetails.c:186-198 | The first slot still asking for the name, and whether any slot is left |
| PkgAnswers.PackageKeepsInv | feeds/admin/debootstrap/files/pkgdetails.c:161-172 | A package line keeps the invariant (pending output exactly when output_pkg is set, on a slot still asked for; every name printed or still asked for) whether it prints or drops the pending output |
| PkgAnswers.BlankKeepsInv | feeds/admin/debootstrap/files/pkgdetails.c:185-200 | A blank line keeps it, whether it sets pending output or not |
| PkgAnswers.PackageKeepsExact | feeds/admin/debootstrap/files/pkgdetails.c:161-172 | With distinct non-empty names a package line prints a pending stanza only as the first that survives, and drops it exactly when the same name comes again |
| PkgAnswers.BlankKeepsExact | feeds/admin/debootstrap/files/pkgdetails.c:185-200 | A blank line makes pending exactly the stanza of a name still open |
| PkgAnswers.SettledIsAnswer | feeds/admin/debootstrap/files/pkgdetails.c:156-206 | What has been printed stays right however the file goes on |
| PkgAnswers.PassIsOneEach | feeds/admin/debootstrap/files/pkgdetails.c:129-214 | Over any file a pass prints exactly one line for each name, each "name -" or the details of a stanza of that name; with distinct non-empty names, those of its first stanza that ends in a blank line and is not directly followed by the same name again. Fields that the stanza lacks are printed as they were before it |
| PkgAnswers.DetailsNameThePackage | feeds/admin/debootstrap/files/pkgdetails.c:190-193 | The details printed for a non-empty name carry that package name |
| PkgAnswers.OneEachIsAnswers | feeds/admin/debootstrap/files/pkgdetails.c:318-324 | Such an output is a permutation of what the names are to get, line for line |
| PkgExactness.PassAllIsOneEach | feeds/admin/debootstrap/files/pkgdetails.c:318-324 | The same for a whole run of any number of arguments; names need to be distinct within each hundred only |
| PkgExactness.OutputIsAnswersIff | feeds/admin/debootstrap/files/pkgdetails.c:318-324 | On every file the output of a run is a permutation of what the arguments are to get, each the details that stand in the buffers at the end of its stanza, if and only if within each hundred the names are distinct and none is empty |
| PkgExactness.PassIsAnswersIff | feeds/admin/debootstrap/files/pkgdetails.c:129-214 | For one pass: if and only if the names are distinct and none is empty |
| PkgExactness.RepeatedNameMissed | feeds/admin/debootstrap/files/pkgdetails.c:186-213 | A failing file: one stanza of a name that is requested twice; the second request is reported missing |
| PkgExactness.NamelessOverwritten | feeds/admin/debootstrap/files/pkgdetails.c:185-200 | A failing file for the empty name: a second stanza of no package overwrites the pending output of the first |
| PkgExactness.DetailsAreRequestedIff | feeds/admin/debootstrap/files/pkgdetails.c:185-206 | On every file each details line is of a requested package if and only if the empty name is not requested; otherwise a second blank line prints the package before it |
| PkgExactness.EmptyNameDisplacesOutput | feeds/admin/debootstrap/files/pkgdetails.c:185-213 | A request for the empty name can displace the pending output of another name, which is then reported missing although it has a stanza |
| PkgOwn.OwnDetailsIff | feeds/admin/debootstrap/files/pkgdetails.c:156-193 | The details printed at the end of a stanza are the stanza's own, a field it lacks being empty, if and only if each field it lacks is empty in the buffers |
| PkgOwn.OutputIsOwnIff | feeds/admin/debootstrap/files/pkgdetails.c:156-206 | On any given file arguments that are distinct and not empty within each hundred get a permutation of the details of their own stanzas if and only if nothing is carried over into any of the stanzas that answer them |
| PkgOwn.AlwaysOwnIffComplete | feeds/admin/debootstrap/files/pkgdetails.c:156-206 | A stanza's package gets the stanza's own details, whatever stands before the stanza and in the buffers at first, if and only if the stanza holds all its fields: version, architecture, size, checksum and filename |
| PkgOwn.VersionCarriedOver | feeds/admin/debootstrap/files/pkgdetails.c:156-193 | A failing file: a stanza with a version and another package's without; the second is printed with the first's version |
| PkgText.ByHeaderIff | feeds/admin/debootstrap/files/pkgdetails.c:156-185 | Every line sets exactly the field it is headed with, in whatever case, if and only if the name of the checksum field, which the environment sets, does not collide with another field's |
| PkgText.TextToDetails | feeds/admin/debootstrap/files/pkgdetails.c:129-206 | From text to output: a stanza written out with all its fields in any order, behind any text that does not name its package, is printed as exactly those fields and the mirror, in the program's order |

## Left out

- Devices, ioctl, sysfs, D-Bus, sockets, argument parsing and everything else of the feed that only calls a device: nothing to prove about them here.
- ParallelLoader: a failing vfork or pthread_create ends the process and is not modelled; insmod's own result is ignored by the source as well. The reader keeps the carriage return the writer emits in the module name it passes on (parallel_insmod.c line 96); lines are modelled with their endings stripped. `getline` is called with a line pointer kept from the call before and a length that is never initialised (lines 65-70); reading a line is one step that yields the next line.
- ModuleGraph: `get_module_dependencies` and `get_all_modules` run commands; their answers are an arbitrary finite map.
- IonAllocator.Allocator.Palloc: the descriptors and handles that some failing paths leak are not modelled, nor the IOMMU build, the DRM path and the debug bookkeeping.
- IonList.Del: the two poison addresses written into a removed node are modelled as null; `container_of` is the identity because links and payload are fields of one node.
- Autosuspend: one controller thread, as the source assumes; only the wakeup-count backend; the kernel's event counter is unbounded.
- Minui.Graphics.Blit: `gr_fill`, the rotated `gr_blit` and `text_blend` share one loop method that differs in the colour function; `gr_text` is not modelled, its characters being separate stencils. Surfaces have 4-byte pixels; the pixels a call draws lie inside the data; a blit's source is another surface; the masks of `pixel_blend` are written as arithmetic; products of sizes do not overflow.
- Repack.YV12ToRGB24: also stands for `YVU420ToRGB24`, which computes the same indices; the four planar loops share one method with the layout as parameter. Products of sizes do not overflow.
- Repack: RGB24ToRGB555 and RGB24ToRGB565 test pointers that are still NULL and always return -1.
- SmartBlob.Disk.GetBlob: a failing malloc; errno is a datatype; the fixed tables are sequences assigned as wholes.
- SmartVerdict: atasmart.h is not part of this model, so the number it gives to an unknown unit is a parameter; the quirk table's regular expressions become two flags for hidden attributes; other attributes' pretty values and the state of the cache after reading new data are left out.
- SmartVerdict.Disk.GetOverall: parses the table before the limit test instead of after it, which makes no difference because a count can only come from a parsed table.
- GrokNumber.GrokNumber: the value is stated where the flags say in-UV; elsewhere the source may leave a partial value behind. The radix is '.', without locales.
- GrokRadix.GrokBin: warnings and the floating-point approximation after an overflow.
- PkgDetails.PrintPackages: lines longer than the buffer reach the program as several lines, which is covered since files are arbitrary; lines hold no NUL. The pass's local variables are one value and its slots a sequence instead of an array. The two buffers the source does not initialise are parameters. The modes GETDEPS, FIELD, STANZAS and WGET% are left out.
