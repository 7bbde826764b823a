# DonutOS, verified

DonutOS is a small 32-bit kernel that spins a donut. This project models the six parts of it that carry hard state or
arithmetic, and proves what they promise:

- the **donut renderer**: integer rotations that run forever, the projection, the lighting and the z-buffer
  (`Rotation`, `DepthBuffer`, `Renderer`), the torus in space that the frames must show (`Geometry`), and what they look
  like on the terminal (`Animation`);
- the **heap**: first fit over headers that lie in the memory they manage, with lazy coalescing. `Chunks` is about lists
  of chunks, `Heap` about the bytes, `HeapRuns` about whole runs;
- **processes and pages**: the bitmap and the page tables (`Paging`, `PageTables`), the scheduler as a pure machine
  (`Scheduling`, and over runs `SchedulingRuns`), and the ring of linked TCBs, each owning a run of the bitmap's pages
  (`Processes`);
- the **terminal**: a scrolling screen that is a window onto an endless tape (`Terminal`), what control characters,
  sequences and colours do to a text (`Writing`), and a line editor that changes a row of bytes and the cells of the
  screen separately (`Editing`, `LineText`, `LineScreen`, `LineSteps`, `LineEditor`);
- the **split virtqueue**: chains of descriptors in wrapping rings, read back as the device reads them (`Virtqueue`), and
  where the rings lie in memory (`VringLayout`);
- **strings**: memmove and memcpy a word at a time (`Memory`), itoa and atoi (`Digits`).

Code that changes things in place is a class or a method over arrays. Each such method is proved to compute a function of
the old state, and the theorems are lemmas about these functions and about runs of them. `dafny verify dfyconfig.toml`
checks everything.

Where the code does less than one would expect, the model follows the code. The project then proves when it does work:

- `malloc` adds four to the size in 32 bits. Sizes above 2^32 − 4 wrap, and 1 to 3 bytes are less than a header
  (`Heap.Allocator.Malloc`).
- `alloc_pages` does not test that the run ends inside memory (`Paging.NullExactly`).
- `USER_PAGES_ADDR` leaves no room for the page directory, so the first user page is page table 31
  (`PageTables.SafeExactlyBehindTheFirst`).
- Reaping the TCB that `lst_proc` points to leaves it dangling (`Scheduling.LstIsReaped`, `Scheduling.LostForever`).
  Processes spawned after that never run, and their pages are never given back (`Processes.Kernel.SpawnProcess`,
  `Processes.Kernel.AccountedExactly`).
- The comparison of ticks is not safe when they wrap: a switch can come too early (`Scheduling.SwitchesApart`) or never
  (`Scheduling.SwitchesAgainExactly`), and both happen (`Scheduling.EveryTickDecides`).
- `memmove` copies the bytes behind the last word upwards even when it moves the words downwards (`Memory.MovesExactly`).
- `vring_size` leaves out the header of the used area (`VringLayout.Areas.InitQueue`).
- `lock_ctx` is a byte that counts nested sections (`Scheduling.NestedSections`).
- `itoa` does not notice a buffer of one byte (`Digits.Itoa`).
- `tty_puts` scrolls only after everything has been written (`Terminal.PutsExactly`).
- `tty_puts` hands on negative chars with all their upper bits, which end up in the colour (`Writing.ColorOf`).
- Enter goes down from the cursor and not from the end of the text, so the next prompt can stand on what is left of it
  (`LineScreen.EnterExactly`, `LineScreen.LeftBelow`, `LineEditor.LineEditor.Read`).

## Model

| member | source | states |
|---|---|---|
| Rotation.RotatedSound | kernel/src/donut.c:39-45 | One use of R with any of the three (mul, shift) pairs keeps x²+y² between 1020² and 1026². |
| Rotation.EndlessRun | kernel/src/donut.c:39-45 | Any number of uses of R, the three pairs mixed in any order, keeps the length in that band: no decay, no growth. |
| Rotation.FromTheAxes | kernel/src/donut.c:57-74 | So does every run from (0, 1024) or (1024, 0), the vectors that donut starts from. |
| Rotation.NewtonDefect | kernel/src/donut.c:43-45 | What one Newton step for the inverse square root leaves: with a = 2^20, 4a³ − q(3a−q)² = (a−q)²(4a−q). |
| Rotation.TurnedRestorable | kernel/src/donut.c:39-42 | Turning stretches a sound vector by so little, roundings included, that one Newton step can bring it back. |
| Rotation.TurnsByItsAngle | kernel/src/donut.c:39-45 | R turns the vector counter-clockwise by the angle with tangent mul/2^shift, up to a stated rounding. |
| Rotation.RotationFits | kernel/src/donut.c:39-45 | No product or sum of R leaves the 32-bit int. |
| Rotation.Rotate | kernel/src/donut.c:39-45 | The macro, assignment by assignment, computes the rotation and keeps the vector sound. |
| DepthBuffer.Plot | kernel/src/donut.c:89-94 | If the two buffers show some samples, then afterwards they show these and the new one: per cell the least depth, and the glyph of the first sample that has it. |
| DepthBuffer.Clear | kernel/src/donut.c:69-70 | Cleared buffers show no sample: 127 and a space everywhere. |
| DepthBuffer.VisibleUnique | kernel/src/donut.c:89-94 | What a cell must show is determined by the samples and their order. |
| DepthBuffer.MarginsAreBlank | kernel/src/donut.c:91 | The first row and the first column stay empty, whatever is plotted. |
| Renderer.DepthRange | kernel/src/donut.c:77-90 | For every sample of every sound frame x6 is between 2 000 000 and 8 500 000 and the depth in [-97, 96], so the int8 cast loses nothing. |
| Renderer.LuminanceRange | kernel/src/donut.c:77-93 | N is at most 11, so the index into the twelve glyphs is always in range. Cauchy-Schwarz on four vectors, every floor counted. |
| Renderer.SampleSafe | kernel/src/donut.c:75-90 | Every intermediate of a sample fits an int, no division is by zero, and the sample lands within a stated distance of the screen. |
| Renderer.DrawFrame | kernel/src/donut.c:69-98 | After the 90 × 324 samples the buffers show exactly the samples of the frame. |
| Renderer.Shoot | kernel/src/donut.c:75-90 | The straight-line arithmetic of one sample makes the sample of which Geometry.LandsWhereProjected and Geometry.LooksAsItShould say where it must land and how it must look. |
| Renderer.Print | kernel/src/donut.c:99-100 | 1761 positions are printed: a line break at every 80th, the buffer elsewhere, and never position 1760 of it. |
| Renderer.Frame | kernel/src/donut.c:69-100 | One frame prints the torus in the pose of that frame. |
| Renderer.Advance | kernel/src/donut.c:101-102 | The pose of the next frame; by which angles it differs, Geometry.Speeds says. |
| Renderer.Donut | kernel/src/donut.c:56-106 | However many frames run, screen f shows, cell by cell, the nearest sample of pose f. |
| Renderer.FilmFrame | kernel/src/donut.c:63-104 | Every single screen of a run is the one of its own frame number. |
| Geometry.TiltedKeepsAngles | kernel/src/donut.c:77-90 | The reference for a tilt is one: with vectors of exact length it keeps all lengths and angles. |
| Geometry.TiltedAxes | kernel/src/donut.c:77-90 | Which way round it tilts. |
| Geometry.IsOnTorus | kernel/src/donut.c:77-80 | The reference for a sample is a point of the torus with radii 2 and 1. |
| Geometry.QuotientTruncates | kernel/src/donut.c:85-86 | C division rounds towards zero. |
| Geometry.LandsWhereProjected | kernel/src/donut.c:75-86 | x - 40 and y - 12 are 30 and 15 times the coordinates of the tilted point of the torus over its distance, signs included, up to one cell for the division and a sixth of one for all other roundings. |
| Geometry.LooksAsItShould | kernel/src/donut.c:84-93 | The depth is the distance in steps, rounded down, and the glyph is the product of the tilted surface normal with a light from above and from the viewer, in steps, rounded down, or the darkest one. |
| Geometry.FirstSample | kernel/src/donut.c:57-93 | The first sample of frame 0 is at column 40, row 21, with depth 0 and the darkest glyph. |
| Geometry.FrameSample | kernel/src/donut.c:71-97 | A frame has 29160 samples, and number 324 l + k is the one l steps around the ring and k steps around the tube. |
| Geometry.Speeds | kernel/src/donut.c:95-102 | The angles between two samples of a ring, between two rings, and between two frames: 5/256, 9/128, and 5/128 and 5/256 for the two tilts. |
| Geometry.EveryGlyphIsTorus | kernel/src/donut.c:56-106 | Whatever a screen of the animation shows in a cell is a point of the torus in the pose of that frame, projected into that cell and lit as it must be. |
| Animation.FrameInPlace | kernel/src/donut.c:68-104 | On the terminal a frame that starts at cell 0 fills rows 1 to 22 without scrolling, and ESC [ 23 A takes the cursor back to cell 0. |
| Animation.AnimationOnScreen | kernel/src/donut.c:56-106 | From the renderer to the screen: after any number of frames, in whatever colours, each cell of the picture shows the first of the nearest samples of the last frame, or a blank. |
| Animation.ShowFrame | kernel/src/donut.c:68-104 | Setting the colour, printing the characters and the escape sequence, on the terminal, is what the other rows call a frame on the screen. |
| Animation.FrameIsColored | kernel/src/donut.c:68-104 | After it all of the screen has the colour of the frame. |
| Chunks.FirstFit | libc/src/malloc.c:54-94 | A request is met exactly if size + 1 consecutive free bytes exist, whatever chunks they are cut into, and then at the lowest address where they start. |
| Chunks.AllocServes | libc/src/malloc.c:61-90 | A request takes exactly the bytes of one chunk out of the free ones and adds exactly that chunk to those in use, or changes nothing visible; at most four bytes are absorbed. |
| Chunks.ExtraExactly | libc/src/malloc.c:67-82 | A request is given more than it asked for exactly if at most four free bytes are left behind it, and then all of these. |
| Chunks.MergeHeadKeeps | libc/src/malloc.c:40-52 | Lazy coalescing keeps the tiling, the free bytes and the chunks in use, and leaves no free chunk behind the merged one. |
| Chunks.CoalescedKeeps | libc/src/malloc.c:40-52 | Coalescing in the middle of a walk does not change the outcome of the walk. |
| Chunks.ReleaseUndoes | libc/src/malloc.c:103-107 | free is the inverse of taking the chunk. |
| Chunks.LiveDisjoint | libc/src/malloc.c:13-107 | Two chunks in use never overlap. |
| Chunks.EveryByteOwned | libc/src/malloc.c:13-107 | Every byte of the heap is free or belongs to a chunk in use. |
| Chunks.EmptyHeapServes | libc/src/malloc.c:54-94 | With nothing in use any request below the heap size is met at address 0, however the heap is cut up. |
| Heap.Allocator.constructor | libc/src/malloc.c:27-31 | heap_init makes one free chunk, whatever the bytes were before. |
| Heap.Allocator.FindEmptySpace | libc/src/malloc.c:33-38 | The walk ends at the first free chunk from p on, or at the end of the heap. |
| Heap.Allocator.ConcatFreeChunks | libc/src/malloc.c:40-52 | Only the header at p is written, and it then covers the free chunks behind. |
| Heap.Allocator.Take | libc/src/malloc.c:66-85 | The found chunk is cut or absorbed; nothing outside it changes; memory_used grows by the size. |
| Heap.Allocator.Walk | libc/src/malloc.c:61-90 | Both nested walks end, with the outcome that first fit prescribes, and no byte in use changes. |
| Heap.Allocator.Malloc | libc/src/malloc.c:54-94 | malloc on the bytes gives the list-level answer and keeps the heap valid whenever size + 4 does not wrap; no request changes a byte in use. Every size that wraps to 1, 2 or 3 leaves a fresh heap that no chunk list describes, so validity is kept for all heaps exactly for sizes up to 2^32 − 4. |
| Heap.TornHeap | libc/src/malloc.c:67-79 | What a wrapped request leaves in the first header, overwritten by the second, describes no tiling at all. |
| Heap.Allocator.Free | libc/src/malloc.c:103-107 | One byte is written, the chunk becomes free, and memory_used loses its size. |
| Heap.Allocator.Store | libc/src/malloc.c:54-94 | The owner of a block may write all of its payload without disturbing the heap. |
| Heap.OtherHeaders | libc/src/malloc.c:40-52 | Writing inside one header leaves all others as they were. |
| HeapRuns.EveryRun | libc/src/malloc.c:27-107 | After heap_init and any run of malloc and free: the chunks tile the heap, blocks are disjoint, in range and large enough, and memory_used plus all that line 81 absorbed is their total size. |
| HeapRuns.StepSound | libc/src/malloc.c:54-107 | Every single malloc or free keeps that invariant. |
| HeapRuns.NullExactly | libc/src/malloc.c:54-94 | After any run malloc(n) returns NULL exactly if no n + 5 consecutive bytes are free, and otherwise the lowest possible address. |
| HeapRuns.AllFreedServes | libc/src/malloc.c:54-107 | Once everything has been freed, every request with n + 4 below the heap size succeeds. |
| Paging.SameBitAfter | kernel/src/paging.c:12-22 | Setting a bit makes it set, clearing it makes it clear. |
| Paging.OtherBitAfter | kernel/src/paging.c:12-22 | Neither touches any other bit of the word. |
| Paging.PageMap.constructor | kernel/src/paging.c:40-46 | After paging_setup exactly the pages from USER_PAGES_ADDR on are free. |
| Paging.PageMap.MarkPage | kernel/src/paging.c:12-14 | The set of free pages loses exactly this one. |
| Paging.PageMap.ClearPage | kernel/src/paging.c:16-18 | The set of free pages gains exactly this one. |
| Paging.PageMap.AllocPage | kernel/src/paging.c:55-63 | The lowest free page is marked, or there is none. |
| Paging.PageMap.AllocPages | kernel/src/paging.c:66-90 | For any n, 0 included: the lowest page that passes the test of lines 70-78 starts the run; exactly its n pages are marked; NULL exactly if no page passes. |
| Paging.PageMap.LowestRun | kernel/src/paging.c:66-90 | If n consecutive free pages exist, what alloc_pages finds is the lowest such run. |
| Paging.NullExactly | kernel/src/paging.c:69-82 | Where the bitmap has no run of n pages, alloc_pages returns NULL whatever lies behind the bitmap exactly if n is 1 or the very last page is taken: the bound i + n ≤ TOTAL_PAGES is missing. |
| Paging.PageMap.LastPageDecides | kernel/src/paging.c:69-82 | The same on the bitmap itself: with n = 1 or the last page taken nothing behind it matters; otherwise a clear bit n − 1 places behind the last page is enough for an overrun. |
| Paging.PageMap.NoCandidateNoRun | kernel/src/paging.c:66-90 | NULL means that no run of n pages exists. |
| Paging.PageMap.LastPageOverrun | kernel/src/paging.c:69-82 | With only the last page free and clear memory behind the bitmap, alloc_pages(2) hands out that page and one that does not exist. |
| Paging.PageMap.LowestFits | kernel/src/paging.c:69-84 | Where a run exists, or the missing check would pass, what is handed out lies inside memory. |
| Paging.PageMap.FreePage | kernel/src/paging.c:92-95 | User pages are freed, lower ones are left alone. |
| Paging.PageMap.FreePages | kernel/src/paging.c:98-105 | Exactly the n pages become free, unless the run is below the user pages. |
| Paging.PageMap.AllocAndFree | kernel/src/paging.c:66-105 | free_pages of what alloc_pages gave restores the bitmap. |
| Paging.FirstPage | kernel/include/paging.h:8-13 | The first page ever handed out is 0x320. |
| PageTables.IdentityMap | kernel/src/paging.c:24-38 | The two-level walk of section 4.3 of Intel SDM volume 3A maps every address below 128 MB to itself, present and writable, and no address above. |
| PageTables.SetUpIsIdentity | kernel/src/paging.c:24-38 | The same for the whole memory as one predicate. |
| PageTables.Setup | kernel/src/paging.c:25-38 | The loops leave the directory and the 32 tables that the walk needs. |
| PageTables.UserWritesKeepTheMap | kernel/src/paging.c:9-10 | Any writes to user pages other than the first keep the identity map. |
| PageTables.FirstUserPageIsATable | kernel/include/paging.h:8-13 | Page 0x320, which is handed out first, is page table 31: a zero at its start unmaps memory. |
| PageTables.SafeExactlyBehindTheFirst | kernel/include/paging.h:8-13 | A user page can be written freely exactly if it is not that first one. |
| Scheduling.ReapDrops | kernel/src/ctx.c:139-144 | Reaping drops the dead successors up to the first live process and nothing else. |
| Scheduling.StepSound | kernel/src/ctx.c:68-148 | Every tick, exit, spawn and lock keeps the kernel process in the ring and alive, and pids distinct. |
| Scheduling.RunSound | kernel/src/ctx.c:68-148 | So does every run. |
| Scheduling.NeverResumesTheDead | kernel/src/ctx.c:117-148 | After a switch the current process is alive. |
| Scheduling.Quiet | kernel/src/ctx.c:135-136 | While no tick is due, the current process and last_ticks stay. |
| Scheduling.QuantumExactly | kernel/src/ctx.c:133-136 | For QUANTUM ticks after a decision none is due, exactly if the tick counter does not wrap in that time or the decision is made at its very last value. |
| Scheduling.SwitchesApart | kernel/src/ctx.c:131-148 | For a running scheduler with a live successor: after a decision no run of at most QUANTUM ticks changes the current process, exactly for the ticks of QuantumExactly; after a decision at any other tick the very next one switches. |
| Scheduling.SwitchesAgainExactly | kernel/src/ctx.c:131-148 | For a running scheduler with a live successor, just after a decision: the successor has its turn within QUANTUM + 1 ticks exactly if last_ticks + QUANTUM is not the largest size_t. |
| Scheduling.StuckForever | kernel/src/ctx.c:133-136 | At that one value no switch ever happens again, whatever else does. |
| Scheduling.EveryTickDecides | kernel/src/ctx.c:131-200 | For every tick t behind the first QUANTUM ones there is a run from the start, a spawn, t − 1 ticks and the scheduler switched on, after which a decision has just been made at t, with a live successor. The fatal tick and those of SwitchesApart are among them. |
| Scheduling.CanStopForGood | kernel/src/ctx.c:131-200 | So the scheduler can stop: after that run for the fatal tick no run brings another process forward. |
| Scheduling.WaitsAtMost | kernel/src/ctx.c:131-148 | Waiting is bounded in ticks: a live process at place k has its turn within k · (QUANTUM + 1) ticks, as long as the counter does not wrap before. |
| Scheduling.LockedRun | kernel/src/ctx.c:138-146 | While lock_ctx is not zero over a run, the current process stays, every tick returns to the code it interrupted, and without spawns and deaths the ring stays as it is. |
| Scheduling.NestedSections | kernel/include/ctx.h:8-9 | lock_ctx counts nested sections modulo 256: 256 of them inside one another leave the scheduler free to switch. |
| Scheduling.EveryoneRuns | kernel/src/ctx.c:117-148 | Every live process becomes current within as many switches as it is places behind the current one, and one more for each process spawned meanwhile. |
| Scheduling.SuspendedAndResumed | kernel/src/ctx.c:117-148 | Whatever happens between a switch and the next turn of the process it interrupted, that process goes on with exactly the frame the switch found. |
| Scheduling.FrameKept | kernel/src/ctx.c:117-148 | Until it is current again, nothing changes the TCB of a live process. |
| Scheduling.ResumesTheSavedFrame | kernel/src/ctx.c:117-148 | A process resumed after any run gets exactly the frame of its suspension, or of its spawn. |
| Scheduling.LstIsReaped | kernel/src/ctx.c:110-148 | A run from the start (a spawn, its turn, its return, two turns of the kernel process) after which lst_proc points to a TCB that is in the ring no more. |
| Scheduling.LostForever | kernel/src/ctx.c:110-148 | After lst_proc was reaped no spawn ever joins the ring again. |
| SchedulingRuns.EveryDueTickDecides | kernel/src/ctx.c:135-138 | Every due tick is a decision, whatever lock and ring are: unless the counter wraps, no run of the next ten ticks switches. |
| SchedulingRuns.HeldBack | kernel/src/ctx.c:135-146 | A section that is open at a due tick and left right behind it costs one quantum: the switch comes eleven ticks later, and not before. |
| SchedulingRuns.LockIs | kernel/include/ctx.h:8-9 | After any run lock_ctx is the number of sections entered and not left, in a byte. |
| SchedulingRuns.HeldExactly | kernel/include/ctx.h:8-9 | The lock is held throughout a run exactly if before each event the number of open sections is no multiple of 256. |
| SchedulingRuns.OpenSections | kernel/include/ctx.h:8-9 | So as long as 1 to 255 sections are open nothing is switched, whatever happens inside them. |
| SchedulingRuns.EnteredAndLeft | kernel/include/ctx.h:8-9 | Entering n sections and leaving k changes the lock by n − k in a byte and nothing else; with n = k nothing at all, from every value. |
| SchedulingRuns.ToggledTwice | kernel/src/ctx.c:193-199 | Toggling twice is nothing, and once is something. |
| SchedulingRuns.OffRun | kernel/src/ctx.c:135 | While the scheduler is off, nothing that happens switches, and no tick decides. |
| SchedulingRuns.AloneStays | kernel/src/ctx.c:138 | A process that is alone goes on at every tick, and its TCB stays as it is. |
| SchedulingRuns.NeverRunsAgain | kernel/src/ctx.c:62-66 | Once a process has returned from its function and another one is current, no run ever resumes it. |
| Processes.Kernel.constructor | kernel/src/ctx.c:150-165 | A ring of one, the kernel process, which owns no page. |
| Processes.Kernel.SwitchCtx | kernel/src/ctx.c:117-129 | The linked TCBs take the step of the pure scheduler; the ring, the runs and the bitmap stay in accord. |
| Processes.Kernel.ReapAll | kernel/src/ctx.c:139-144 | The loop ends, frees exactly the pages of the dead, unlinks them, and never frees the current process. |
| Processes.Kernel.TimerHandler | kernel/src/timer.c:11-14 | A tick on the linked TCBs is the tick of the pure scheduler and returns the same frame. What that is, SchedulingRuns.EveryDueTickDecides, Scheduling.SwitchesAgainExactly and Scheduling.SuspendedAndResumed say. |
| Processes.Kernel.Exit | kernel/src/ctx.c:62-66 | A process that returns is marked dead and stays in the ring. |
| Processes.Kernel.Toggle | kernel/src/ctx.c:193-199 | Switching the scheduler on or off is the step of the pure machine. |
| Processes.Kernel.EnterSection | kernel/include/ctx.h:8 | Entering a critical section is the step of the pure machine, in eight bits. |
| Processes.Kernel.LeaveSection | kernel/include/ctx.h:9 | Leaving one is the step that undoes it (SchedulingRuns.EnteredAndLeft). |
| Processes.Kernel.SpawnProcess | kernel/src/ctx.c:68-115 | Whatever became of lst_proc: err is 1 exactly if alloc_pages finds nothing, and then nothing changed. Otherwise the new TCB owns the lowest candidate run; if lst_proc was in the ring it follows lst_proc, and if not, the ring stays and the new process is lost. All runs stay disjoint, and the marked user pages stay exactly the union of the runs of the ring and of the lost ones. Starting with none lost, the ring alone accounts for them afterwards exactly if lst_proc was in the ring. |
| Processes.Kernel.AccountedExactly | kernel/src/ctx.c:68-148 | In every state: the marked user pages are exactly the runs of the ring if and only if no process with pages was lost. |
| Processes.Kernel.ValidIsSound | kernel/src/ctx.c:68-148 | What the linked structure keeps implies the invariant of the pure scheduler, so its theorems apply. |
| Processes.UnlinkedPages | kernel/src/ctx.c:140-143 | Returning the run of an unlinked TCB makes the bitmap right for the other owners. |
| Processes.InsertedPages | kernel/src/ctx.c:68-112 | A freshly marked run makes the bitmap right for one more owner. |
| Processes.StartsAtStub | kernel/src/ctx.c:74-108 | Whatever happens before its first turn, a spawned process starts at __stub with its own stack, the segments and flags of its creator, and empty registers. |
| Memory.Memmove | libc/src/string.c:75-111 | memmove, word by word and then the rest, for any two ranges; it moves the bytes whenever dest ≤ src, the ranges are disjoint, or n is a multiple of four. |
| Memory.MovesExactly | libc/src/string.c:75-111 | It is right for all contents of memory exactly under that condition. |
| Memory.OutcomeFails | libc/src/string.c:81-92 | For every other choice of dest, src and n there are contents for which a byte of the tail is lost. |
| Memory.Memcpy | libc/src/string.c:3-17 | memcpy for any two ranges, word by word and then the rest; it moves the bytes if the ranges are disjoint or dest is below src. |
| Memory.CopiesExactly | libc/src/string.c:3-17 | It moves them for all contents exactly then, or if it copies a single word. |
| Memory.BytesUpMoves | libc/src/string.c:11-14 | Copying upwards byte by byte is moving unless dest starts inside the source. |
| Memory.MovedDown | libc/src/string.c:81-87 | Moving the upper words first and then the lower ones is moving all. |
| Memory.Strlen | libc/src/string.c:40-44 | The number of bytes before the NUL. |
| Memory.Strrev | libc/src/string.c:46-56 | The string is reversed in place and still ends at the same NUL. |
| Digits.NumeralMeans | libc/src/itoa.c:10-19 | The numeral of v in any base from 2 to 36 has no leading zero and means v. |
| Digits.NumeralUnique | libc/src/itoa.c:10-19 | It is the only such digit string. |
| Digits.Hexadecimal | libc/src/itoa.c:12 | In base 16 the letters are small: beef. |
| Digits.Itoa | libc/src/itoa.c:4-22 | The unique numeral of the value mod 2^32 is written; -1 exactly for a length of 0, a base outside 2..36 or a numeral longer than len − 1; nothing outside the buffer changes. With a length of 1 the lowest digit and a NUL are written, two bytes, and 0 is returned. |
| Digits.Atoi | libc/src/atoi.c:3-23 | The int stands, mod 2^32, for every reading of the string: blanks, a sign or none, digits, and a rest that is none of these. |
| Digits.EveryStringReads | libc/src/atoi.c:7-20 | Every string has such a reading. |
| Digits.ReadAsUnique | libc/src/atoi.c:3-23 | And only one int stands for it. |
| Digits.ParsedNumeral | libc/src/atoi.c:7-22 | A numeral, with any blanks before it and anything but a digit behind it, is read as its value, with a plus sign as well, and with a minus sign as minus that. |
| Digits.ParsedNothing | libc/src/atoi.c:7-22 | Without a digit it is 0. |
| Digits.RoundTrip | libc/src/atoi.c:3-23 | atoi undoes itoa in base 10 for every int, negative ones included, exactly unless the length is 1 and the int is no digit. |
| Digits.TenDigits | libc/src/itoa.c:4-22 | Eleven bytes are enough for any int in base 10. |
| Virtqueue.Vring.constructor | kernel/src/virtio_net.c:155-167 | A cleared queue has sent nothing. |
| Virtqueue.Vring.WriteChain | kernel/src/virtio_net.c:189-205 | The table then holds the last num entries written, each at its counter modulo num. |
| Virtqueue.Vring.Send | kernel/src/virtio_net.c:177-211 | After any number of sends, of whatever buffers, the table and the ring hold the latest entries and heads, across all wraps. |
| Virtqueue.Vring.Readable | kernel/src/virtio_net.c:177-211 | While a send and those after it have no more than num buffers, its slot of the available ring heads a chain that visits exactly its buffers, in order, and stops (sections 2.7.5, 2.7.6 and 2.7.13 of VirtIO 1.3). |
| Virtqueue.ChainsDisjoint | kernel/src/virtio_net.c:189-204 | Chains of outstanding sends share no table entry. |
| Virtqueue.StaysExactly | kernel/src/virtio_net.c:189-205 | When n entries have been written, by whatever sends, entry i is sure to be in the table exactly if at most num of them were written from it on. |
| Virtqueue.WrapsExactly | kernel/src/virtio_net.c:188-207 | The 16-bit idx taken modulo num counts ring slots without a jump exactly if num divides 2^16. |
| Virtqueue.WalkFrom | kernel/src/virtio_net.c:189-204 | Where the table holds the entries of a send, the device reads its buffers from any of them on. |
| Virtqueue.NeedEventExactly | kernel/include/virtio_net.h:136-138 | The other side is to be notified exactly if the index it waits for is among those passed, wrapped or not. |
| VringLayout.Areas.Init | kernel/include/virtio_net.h:129-134 | Descriptors, available and used area follow each other, the last one at the next multiple of align. |
| VringLayout.Areas.InitQueue | kernel/src/virtio_net.c:155-167 | NULL is reported exactly if there is no block; the areas are ordered, disjoint and aligned; the used area fits into vring_size exactly if the queue size is no multiple of 512, and stays inside the allocated block exactly if that holds or at most 4091 bytes went to alignment. |
| VringLayout.UsedArea | kernel/include/virtio_net.h:124-134 | The arithmetic behind it: line 126 leaves out the header of the used area (section 2.7.2 of VirtIO 1.3). |
| VringLayout.AlignBits | kernel/include/virtio_net.h:123 | The bit formula of ALIGN rounds up to a multiple of 4096. |
| Terminal.PutShows | kernel/src/tty.c:116-149 | One tty_putc: if the screen is a window onto a tape, it is afterwards a window onto the tape with that character typed. |
| Terminal.PutExactly | kernel/src/tty.c:116-149 | It is some window exactly unless a backspace is put at cell 0. |
| Terminal.OffScreen | kernel/src/tty.c:87-149 | That backspace empties every cell and leaves the cursor off the screen. |
| Terminal.EveryRun | kernel/src/tty.c:87-149 | Any run of tty_putc with no backspace at cell 0: the cursor is on the screen, the low bytes are 25 rows of the endless tape, and the top row is the number of scrolls. |
| Terminal.EveryRunFromBlank | kernel/src/tty.c:87-159 | The same from a cleared screen, with nothing assumed. |
| Terminal.TypedText | kernel/src/tty.c:124-144 | On the tape, text stands where it was typed and everything else stays. |
| Terminal.PutsShows | kernel/src/tty.c:161-212 | tty_puts with its escape sequences, which scrolls once at its end, shows the right window if the cursor stays inside, no character lands past the last cell and the cursor ends at most 25 rows below. On the tape the sequences move the place where one types. |
| Terminal.EveryPuts | kernel/src/tty.c:161-212 | So does any run of such strings. |
| Terminal.PutsExactly | kernel/src/tty.c:161-212 | While the cursor stays inside and the characters are seen, exactly then does the screen show any window at all. |
| Terminal.CommandExactly | kernel/src/tty.c:184-211 | A cursor sequence by itself, unless it goes around all 32 bits: some window is shown exactly if the cursor stays on the screen or goes at most 25 rows below it. |
| Terminal.StaysPlain | kernel/src/tty.c:124-144 | Without ESC, and up to 50 million characters, the cursor stays inside exactly unless a backspace comes at cell 0. |
| Terminal.TracedPlain | kernel/src/tty.c:164-207 | Without ESC, what a string does to the tape is what typing it does. |
| Terminal.BackspaceAtCell0 | kernel/src/tty.c:124-144 | A backspace at cell 0 of a scrolled screen, followed by a character: that is lost, and the screen shows the right window nevertheless. |
| Writing.Controls | kernel/src/tty.c:128-136 | A line break goes to the first column of the next row, a return to that of this one, a backspace one place back. |
| Writing.TwoLines | kernel/src/tty.c:124-144 | Two lines of text stand in two rows, from the first column on. |
| Writing.WrittenAgain | kernel/src/tty.c:124-144 | After a return the row is written again. |
| Writing.EscapeOnTape | kernel/src/tty.c:174-203 | ESC [ numeral letter, for any number of up to 15 digits, does to the tape what the letter says that many times. |
| Writing.Letters | kernel/src/tty.c:184-202 | A and B go up and down rows in the same column, C and D to the right and to the left, H to the first cell of the screen. |
| Writing.Swallowed | kernel/src/tty.c:168-173 | An ESC that no bracket follows swallows one character. |
| Writing.ColorSet | kernel/src/tty.c:111-114 | tty_set_color keeps every character and the cursor and gives every cell the new colour. |
| Writing.RowsScrolled | kernel/src/tty.c:87-109 | Scrolling by n puts each row n higher, empties the last n, and colours all of them. |
| Writing.NegativeScroll | kernel/src/tty.c:88-95 | A negative count moves the cursor by a whole screen and nothing else. |
| Writing.Cleared | kernel/src/tty.c:151-159 | A cleared screen shows spaces, and what scrolls in below it is empty. |
| Writing.ColorOf | kernel/src/tty.c:139-141 | A byte is written in the colour that is set; a negative char, as tty_puts hands it on, in white on white. |
| Writing.StaysUniform | kernel/src/tty.c:87-149 | A screen in one colour stays in it, whatever bytes tty_putc writes. |
| Terminal.Tty.constructor | kernel/src/tty.c:70-83 | A cleared screen. |
| Terminal.Tty.ClearScreen | kernel/src/tty.c:151-159 | 2000 spaces in the current colour, cursor at 0. |
| Terminal.Tty.Scroll | kernel/src/tty.c:87-109 | Every cell gets the character of the one n rows below in the current colour, or 0; at most the whole screen moves, and the cursor by as much. For a negative n the cursor moves up by a whole screen and the cells stay. |
| Terminal.Tty.SetColor | kernel/src/tty.c:111-114 | All cells keep their characters and change their colour (Writing.ColorSet). |
| Terminal.Tty.UpdateCursor | kernel/src/tty.c:116-122 | A cursor below the screen brings its row to the bottom. |
| Terminal.Tty.WriteChar | kernel/src/tty.c:124-144 | What is written, and where the cursor goes, in 32 bits. |
| Terminal.Tty.Putc | kernel/src/tty.c:146-149 | One character as the pure screen takes it. |
| Terminal.Tty.PutString | kernel/src/tty.c:161-212 | tty_puts, escape sequences included, for every string whose sequences end before it does: the screen as the pure one obeys it, and the length is returned. Without ESC that is Puts. |
| Terminal.ObeyedPlain | kernel/src/tty.c:164-207 | Without ESC, obeying a string is writing its characters. |
| Terminal.ObeyedBoth | kernel/src/tty.c:164-207 | Obeying two strings one after the other is obeying them joined. |
| Terminal.SequenceIs | kernel/src/tty.c:174-203 | ESC [ digits letter moves the cursor as the letter says, by the number that the digits mean, in 32 bits. |
| Editing.TypeAndErase | kernel/src/tty.c:331-373 | Backspace undoes any key that inserts. |
| Editing.LeftAndRight | kernel/src/tty.c:307-320 | Left and then right is nothing. |
| Editing.RightAndLeft | kernel/src/tty.c:307-320 | Right and then left is nothing. |
| Editing.DeleteIsRightAndErase | kernel/src/tty.c:331-362 | Delete is right and then backspace. |
| Editing.CursorKeepsText | kernel/src/tty.c:307-330 | No run of cursor keys changes the text. |
| Editing.TypingText | kernel/src/tty.c:363-373 | Typed keys are inserted at the cursor in order. H, K, M and P are not among them: their bytes are the arrows. |
| Editing.UpAndDown | kernel/src/tty.c:249-281 | Browsing up and down again gives back the line and all rows. |
| Editing.CursorPlace | kernel/src/tty.c:307-330 | Left, Right, Home and End keep the text and take the cursor one place back or on, to the start or to the end, and never outside. |
| Editing.TextAt | kernel/src/tty.c:331-373 | Keys insert at the cursor, backspace deletes before it and delete behind it, in terms of the whole text and the place. |
| Editing.NothingThere | kernel/src/tty.c:294-362 | At the edges nothing happens: nothing left or right of the cursor, up at the first row, down at the last. |
| Editing.TypingAtEnd | kernel/src/tty.c:326-373 | Typing after End appends. |
| Editing.TypingAtHome | kernel/src/tty.c:321-373 | Typing after Home prepends. |
| Editing.GoingUp | kernel/src/tty.c:249-281 | Going up n times is the n-th row before, modulo 16, with the line left in its own row and all others as they were. |
| Editing.UpAtFirst | kernel/src/tty.c:277-281 | From the first row on, up stays. |
| LineText.ErasedText | kernel/src/tty.c:343-346 | Shifting the bytes of the row down by memmove is erasing left of the cursor, and no other row changes. |
| LineText.DeletedText | kernel/src/tty.c:359-360 | The same for deleting at the cursor, though one byte behind the text is moved too. |
| LineText.InsertedText | kernel/src/tty.c:364-371 | Shifting up and storing the key is inserting. |
| LineText.OpenedText | kernel/src/tty.c:250-257 | Closing the row with a NUL and opening another one is what browsing means, up to the first NUL of the line. |
| LineScreen.ErasedInside | kernel/src/tty.c:338-342 | Backspace in the line moves more cells than the line has; the screen still shows it, with blanks behind. |
| LineScreen.Deleted | kernel/src/tty.c:353-356 | The same for delete. |
| LineScreen.Inserted | kernel/src/tty.c:364-372 | The same for insertion. |
| LineScreen.RowShown | kernel/src/tty.c:259-268 | Rewriting the prompt line shows the other row and blanks out the rest of the old one, if that other row is shown as it is and there is room for it. |
| LineScreen.EnterExactly | kernel/src/tty.c:400 | Enter goes down from the cursor: the screen is blank from there on exactly if no text but spaces is left in the rows below. |
| LineScreen.LeftBelow | kernel/src/tty.c:307-400 | That fails for every text that does not fit in the row of its prompt, does not end in a space, and is left with Home. |
| LineEditor.LineEditor.constructor | kernel/src/tty.c:384-391 | The line starts empty in the last row, and the screen agrees with it exactly if the cursor is at the prompt and all is blank from there on. |
| LineEditor.LineEditor.Prompt | kernel/src/tty.c:611-612 | Behind the prompt the screen is as blank as it was, also when the prompt scrolls it. |
| LineEditor.LineEditor.MoveCursor | kernel/src/tty.c:307-330 | Both cursors move together, to the place that Editing.CursorPlace names. |
| LineEditor.LineEditor.Backspace | kernel/src/tty.c:331-350 | Buffer and screen after backspace. |
| LineEditor.LineEditor.Delete | kernel/src/tty.c:351-362 | Buffer and screen after delete. |
| LineEditor.LineEditor.Insert | kernel/src/tty.c:363-373 | Buffer and screen after any other key. |
| LineEditor.LineEditor.HistoryMove | kernel/src/tty.c:249-269 | The line is kept in its row and the neighbouring row, modulo 16, is edited; if the screen agreed with the line and that row has no ESC or other control character and has room, it agrees again. |
| LineEditor.LineEditor.Press | kernel/src/tty.c:294-382 | Whatever the key, the row, the cursor and the length are the pair of texts that the key makes; and if the screen agreed with the line and has room for what is inserted or browsed to, which has no control characters, it agrees again. |
| LineEditor.LineEditor.Type | kernel/src/tty.c:393-397 | The same for every sequence of keys up to Enter, room and characters being asked of each key when it comes. |
| LineEditor.LineEditor.Read | kernel/src/tty.c:384-403 | The caller of tty_read gets exactly the text that the keys make, with its NUL; and if the screen followed, it is blank behind the cursor, for the next prompt, exactly if the text right of the cursor ended in its row. |

## Left out

- Terminal.PutsExactly: strings that take the cursor off the top of the screen or around all 32 bits; by itself a backspace or a sequence that does so shows no window (Terminal.PutExactly, Terminal.CommandExactly), but more characters can undo it unnoticed (Terminal.BackspaceAtCell0). NUL glyphs, of which none can tell whether they were lost.
- Terminal.Tty.PutString: strings that end inside an escape sequence, behind whose NUL the code reads on, and sequences of 16 digits and more, which fill tmp.
- Terminal.Tty.Scroll: an n below minus 50 million or above 53 million, whose product with the width wraps. Cells past the 2000 of the screen are not part of the model.
- LineEditor.LineEditor.Press: browsing to a row that ends inside an escape sequence (see Terminal.Tty.PutString), and inserting into a line of more than 510 bytes. At 512 the NUL of line 401 goes into the next row. The screen is followed while the prompt and twice the length fit in its 2000 cells, since backspace and delete move that many, and for characters that it shows as they are.
- LineEditor.LineEditor.Read: the rows of the history are given. How `__history_new_buf` fills them and drops duplicates is left out, as is waiting for the keyboard.
- Heap.Allocator.Malloc: for sizes that wrap, only what they do to a fresh heap is stated in full; on other heaps the bytes that follow can happen to look right.
- Heap.Allocator.Free: pointers that are not blocks in use. Addresses are offsets from HEAP_ADDRESS.
- Processes.Kernel.SpawnProcess: the allocation of the TCB succeeds, pids do not wrap, and the stack addresses of line 73 are parameters. The link written into a reaped TCB goes into freed memory; what else might be stored there by then is not modelled. A run that alloc_pages lets reach past the last page is recorded as such.
- Processes.Kernel.ReapAll: the memory of the TCBs themselves, which malloc and free manage, is not connected with the heap model.
- Paging.PageMap.AllocPages: address arithmetic beyond 32 bits.
- Digits.Itoa: negative lengths, which set no limit at all.
- Virtqueue.Vring.Send: idx and the ring are modelled, the notification of the device is not. What a device reads is stated for sends of 1 to num buffers whose flags leave NEXT to the driver (Virtqueue.Vring.Readable).
- VringLayout.Areas.InitQueue: calloc of the vring itself succeeds.
- Heap, page tables and user pages are separate memories. In the kernel the heap range covers the page directory, so what they do to each other is not captured.
- A tick, a key and a spawn are atomic steps; interrupts inside them, and what `volatile` is for, are not modelled.
- `calloc`, `memset`, `strcpy`, `strcat`, `strcmp`: simple loops; calloc also clears memory behind NULL when malloc fails.
- Port I/O, PIC, PIT, IDT, PCI, boot code and inline assembly: no state of their own that the properties need.
- kernel/src/rtl8139.c, printf, the shell commands, the packet viewer and rand.
