# clARMOR: a verified model

clARMOR puts poisoned "canary" bytes (0xC2) around every OpenCL buffer, SVM allocation and image,
runs the user's kernel, and then decides which objects overflowed and where. This project models
that machinery in Dafny and proves that its very different checkers give one answer, that images,
launches and API writes keep the canaries meaningful over whole runs, and that the metadata it keeps
is right. Nothing was executed: every claim below is a theorem about the model.

`dafny verify dfyconfig.toml` checks the whole project.

## How the model is built

- **One specification.** `Canary.FirstBad`: the least canary offset whose byte is not the fill, or
  INT_MAX. Every checker is a method proved against it.
- **Kernels as concurrent steps** (`Schedules`, `Kernels`, `KernelLayouts`). A launch is a set of
  work-items in work-groups. An event is one work-item comparing (and perhaps mending) its word, or
  one group committing the minimum of its scan with `atomic_min`. Any enabled event may come next.
  An invariant over all interleavings gives a postcondition in which no schedule appears; the
  in-place execution of a schedule is proved to compute exactly its steps.
- **Linear objects** (`LinearBuffers`, `CpuCheck`, `GpuCheck`, `SvmPointers`, `SingleBuffer`,
  `Strategies`, `Reports`). Device memory is a byte array. The host scan, the copied-canary kernel,
  the SVM-pointer kernel and the single-buffer kernel with its in-place compaction all establish
  the same postcondition: each object's own first bad offset, all canaries mended, no other byte
  changed outside the detector's scratch memory.
- **Images** (`ImageGeometry` to `ImageChecks`, `ImageKernel`). Pad widths are symbolic in the
  geometry and 16 in the checks. Expansion, initial fill, flattening, re-poisoning and decoding are
  separate programs proved to agree on one partition of the pixels.
- **Runs** (`RunModel`, `Staging`, `Runs`). `RunModel` has the device objects with canaries, the
  single operations on them, and the check after a kernel; a kernel may write anything inside the
  expanded storage of the objects it can reach. `Staging` adds what the values of kernel arguments
  name in the tool's table, the buffers the user created over host memory, which have no canaries,
  and the launch as `kernelLaunchFunc` makes it: poisoned clones of such buffers, kernel, check,
  mend, copy back, release. Images over host memory exist for the driver; for the tool they are one
  record under the null handle. `Runs` is the state machine of
  creations, guarded writes, the host program's own writes, launches and releases, and has the
  theorems over every run.
- **Histories and views** (`Histories`, `UserViews`). What the operations of a run alone say: which
  objects there are and where, which of them each launch checks, and what each holds for its user, who
  does not see the canaries. The tables and device memory are proved to follow.
- **The detector** (`DeviceImages`, `PictureChecks`, `CheckLists`, `CloneSteps`, `Session`).
  `Session.Detector` holds the tables and device memory and changes them in place; each intercepted
  call is proved to be a step of a run, and `KernelLaunch`, with cloning loop, kernel, whole
  collect-check-mend pipeline by any strategy, copying back and release, to be the launch step.
- **What a launch means** (`KernelRuns`, `StagedRuns`, `LaunchMeaning`). A kernel is a family of
  deterministic work-item programs over loads and stores at signed offsets from pointer arguments
  and pixel reads and writes through image arguments, interleaved by an arbitrary schedule. Where it
  may write follows from its stores alone, whatever it reads. Its meaning is given on separate
  arrays where a write outside one is lost; the device, with clones or without, is proved to compute
  that meaning.
- **Metadata** (`KernelArgs`, `SvmCache`, `SvmLookup`, `Accounting`, `ApiGuards`).

## Where the code does not do what is claimed for it

Each is a theorem here: an input or family that fails, and the exact condition.

- The upload in `clCreateImage` (src/cl_wrapper/cl_interceptor.c:1098-1112) uses width, height and
  depth but not the array size. The canary of a new image is covered if and only if the image is not
  an array (`ImageFill.UploadCoversCanary`); an array image can therefore be reported by a launch
  that wrote nothing (`RunModel.ArrayImageFalseReport`). The run invariant excepts exactly the array
  images no launch has checked yet.
- `getImageCanaryXYZ` (src/detector/overflow_error.c:120-175) ignores the array size too; it is right
  for every canary position if and only if the image is not an array or has one layer
  (`ImageDecode.DecoderExact`).
- `allocFlatImageCopy` (src/cl_wrapper/wrapper_utils.c:110-133) counts the default row pitch in
  pixels and multiplies the slice pitch by the row pitch; it finds the host rows if and only if the
  pitches satisfy `ImageHostRows.PitchesAgree`.
- An image created with CL_MEM_USE_HOST_PTR is never checked, cloned or reported. Only the branch of
  `clCreateImage` for images with canaries stores the handle in the record
  (src/cl_wrapper/cl_interceptor.c:1096); every other record is filed under the null handle, so
  `clSetKernelArg` (src/cl_wrapper/cl_interceptor.c:1741-1750) takes the image's handle for a plain
  value, and the image guard finds no record (src/cl_wrapper/wrapper_utils.c:298-300). An image
  argument is checked and reported if and only if the image was created without
  CL_MEM_USE_HOST_PTR (`Histories.EveryLaunchChecksArguments`); a run whose
  launch overwrites one of the others and reports nothing is `Runs.HostImageRun`.
- Once there is a record under the null handle, any eight-byte zero among a kernel's arguments
  matches it, `createPoisonedKernel` (src/detector/bufferOverflowDetect.c:425-510) fails to copy from
  the null image, and the process exits (`Session.Detector.KernelLaunch`,
  `Histories.NullArgumentEndsRun`).
- `createPoisonedKernel` sets an SVM argument of the duplicated kernel to the base of its allocation
  (src/detector/bufferOverflowDetect.c:415-421). The duplicate finds its objects where the user's
  arguments point if and only if no pointer has an offset or nothing is duplicated
  (`StagedRuns.StageBindings`); otherwise its accesses are displaced (`LaunchMeaning.RebasedStore`).
- The linear guard (src/cl_wrapper/wrapper_utils.c:222-249) adds offset and size in 64 bits: a
  transfer whose end wraps is let through (`ApiGuards.WrappedTransferSlips`). Exactly what it flags
  is `ApiGuards.LinearGuardExact`.
- The messages of the guards narrow 64-bit numbers (src/detector/overflow_error.c:177-226): to unsigned
  for buffers, to int for images. They are right if and only if the numbers fit
  (`ApiGuards.LinearGuardReports`, `ApiGuards.RectGuardReports`, `ImageReports.ImageGuardReports`).
- The rectangle guard (src/cl_wrapper/wrapper_utils.c:251-291) compares offset plus volume with the
  size, so with padded pitches a rectangle can end past the buffer unnoticed
  (`ApiGuards.PaddedRectSlips`), and with tight ones a rectangle can end past 2^64
  (`ApiGuards.WrappedRectSlips`). It is exact if and only if the pitches are tight and the end is
  below 2^64 (`ApiGuards.RectGuardExact`).
- The image guard (src/cl_wrapper/wrapper_utils.c:293-365) adds origin and region in 64 bits and
  takes a pad off dimensions that have none. A box whose end wraps back inside is let through, and
  an empty box far out in a dimension the image does not have is flagged
  (`ApiGuards.WrappedBoxSlips`); which boxes it is right about is `ApiGuards.ImageGuardRight`.
- The memory counters (src/cl_wrapper/cl_interceptor.c) drift from the sums over the objects that
  exist when a creation fails after it was counted (`Accounting.FailedAllocationStaysCounted`), when
  an image over host memory is released, whose record is not under its handle
  (`Accounting.HostImageDrifts`), when an object is released in another mode than it was created in,
  as the SVM copies of the canaries are by the driver's callback thread
  (`Accounting.CallbackFreeDrifts`), and when the detector releases a host-pointer buffer of its own
  (`Accounting.InternalHostBufferDrifts`); releasing the null handle moves them back
  (`Accounting.NullReleaseDriftsBack`). The drift is known exactly after every run
  (`Accounting.CountersAreSums`), and there is none if and only if every call of the run is harmless
  (`Accounting.ExactIffHarmless`).
## Model

| member | source | states |
|---|---|---|
| `Canary.FirstBad` | src/cpu_check/cpu_check_utils.c:41-79 | the specification of every checker: the least index whose byte is not 0xC2, or INT_MAX when there is none |
| `Canary.FirstBadConcat` | src/gpu_check/single_buffer/single_buffer_cl_buffer.c:154-178 | checking the two regions apart and taking min(front, 4096 + back) gives the answer for the whole canary |
| `Canary.XorBytes` | src/gpu_check/gpu_check_kernels.cpp:151-171 | a byte of poison xor word is non-zero exactly where that byte differs from the fill |
| `Schedules.NoDeadlock` | src/gpu_check/gpu_check_kernels.cpp:55-115 | until every work-group has committed, some work-item can compare or some group can commit |
| `Schedules.SchedulesAreFinite` | src/gpu_check/gpu_check_kernels.cpp:55-115 | no schedule is longer than the compares and commits left to make |
| `Schedules.ScheduleExists` | src/gpu_check/gpu_check_kernels.cpp:55-115 | every launch that can be made has a schedule that runs it to its end |
| `Schedules.InvRuns` | src/gpu_check/gpu_check_kernels.cpp:55-115 | every interleaving of compares and atomic_min commits keeps the invariant: unread words are untouched, read words are mended, each slot holds INT_MAX or a verdict of its own items and accounts for every committed group |
| `Schedules.EveryScheduleFinishes` | src/gpu_check/gpu_check_kernels.cpp:55-115 | whatever order the groups commit in, the finished launch satisfies a postcondition in which no schedule appears |
| `Schedules.SchedulesAgree` | src/gpu_check/gpu_check_kernels.cpp:55-115 | two complete schedules leave equal memory and equal results |
| `Schedules.SlotReportsFirstBad` | src/gpu_check/gpu_check_kernels.cpp:55-115 | a finished launch leaves in each slot the first bad offset of that slot's own canary bytes, never another buffer's |
| `Schedules.LaunchMends` | src/gpu_check/gpu_check_kernels.cpp:229-283 | a finished mending launch leaves every canary byte the fill and no other byte changed |
| `Schedules.LayoutIsRaceFree` | src/gpu_check/gpu_check_kernels.cpp:229-283 | work-items of a launch whose canary bytes are at distinct addresses share no byte |
| `Kernels.CompareWithPoison` | src/gpu_check/gpu_check_kernels.cpp:35-54 | returns the offset of the first byte of the word that differs, or INT_MAX, as the specification defines it |
| `Kernels.CompareAndMend` | src/gpu_check/gpu_check_kernels.cpp:229-249 | the same verdict, and the word is the fill afterwards |
| `Kernels.CompareXor` | src/gpu_check/gpu_check_kernels.cpp:151-171 | the xor comparer gives the same verdict and mends the word |
| `Kernels.CompareBytes` | src/gpu_check/gpu_check_kernels.cpp:172-189 | the unaligned byte comparer gives the same verdict and mends the same four bytes |
| `Kernels.FindOwner` | src/gpu_check/gpu_check_kernels.cpp:129-132 | the search over prefix-sum ends finds the unique image whose interval holds the work-item |
| `Kernels.OwnerUnique` | src/gpu_check/gpu_check_kernels.cpp:129-132 | no two intervals of ascending ends hold the same work-item |
| `Kernels.ScanInclusiveMin` | src/gpu_check/gpu_check_kernels.cpp:77-81 | the last lane of a group receives the minimum of the group's verdicts |
| `Kernels.RunSchedule` | src/gpu_check/gpu_check_kernels.cpp:55-283 | executing any schedule of any of the five kernels in place, event by event, computes the schedule's outcome |
| `KernelLayouts.WordLaunchable` | src/gpu_check/gpu_check_kernels.cpp:29-30 | with a work-group size dividing the canary length no group straddles two buffers and the launch is race free |
| `KernelLayouts.CopyLaunchOk` | src/gpu_check/gpu_check_kernels.cpp:55-115 | the copied-canary launch covers every canary byte of every buffer at its copied address |
| `KernelLayouts.PtrLaunchOk` | src/gpu_check/gpu_check_kernels.cpp:250-283 | the (pointer, word) targets of the SVM-pointer kernel cover every SVM canary, each word by one work-item, at the offsets of the copied layout |
| `KernelLayouts.PtrViewsDistinct` | src/gpu_check/gpu_check_kernels.cpp:250-283 | no two canary bytes reached through the pointer table coincide |
| `KernelLayouts.PartsLaunchOk` | src/gpu_check/gpu_check_kernels.cpp:191-221 | the per-region launches cover each region once and touch nothing in common |
| `LinearBuffers.MendCanaryRegion` | src/detector/check_utils.c:199-240 | rewrites both canary regions of a buffer and nothing else |
| `LinearBuffers.PositionIsExact` | src/detector/overflow_error.c:360-369 | the printed position is the corrupted byte's distance before the first or past the last user byte |
| `CpuCheck.CpuParseCanary` | src/cpu_check/cpu_check_utils.c:41-79 | the word scan with its byte search below check_len returns the first bad offset of the array |
| `CpuCheck.VerifyClMem` | src/cpu_check/cpu_check_cl_mem.c:33-121 | reports every buffer's first bad canary offset; afterwards every canary is clean and every other byte unchanged |
| `CpuCheck.CleanCanaryNeedsNoMend` | src/cpu_check/cpu_check_utils.c:66-78 | leaving a clean canary alone has the same effect as rewriting it |
| `GpuCheck.CreateCanaryCopies` | src/gpu_check/copy_canary/copy_canary_cl_buffer.c:34-149 | the copies hold both regions of every buffer, front first, and every buffer is mended after it is copied |
| `GpuCheck.CheckCopies` | src/gpu_check/copy_canary/copy_canary_cl_buffer.c:213-302 | launch bounds and layout give each buffer its own slot |
| `GpuCheck.VerifyClBufferCopy` | src/gpu_check/copy_canary/copy_canary_cl_buffer.c:304-389 | for every schedule: every buffer's own first bad canary offset, and all canaries mended |
| `SvmPointers.CreateSvmPtrCopies` | src/gpu_check/copy_canary/copy_canary_cl_buffer.c:151-211 | entry 2b is the front and 2b+1 the back canary of SVM allocation b |
| `SvmPointers.VerifyClBufferSvmPtr` | src/gpu_check/gpu_check_kernels.cpp:229-283 | for every schedule the in-place check reports the same offsets as the copied layout and leaves every canary clean |
| `SingleBuffer.PerformClBufferChecks` | src/gpu_check/single_buffer/single_buffer_cl_buffer.c:94-152 | one launch per canary region, region n of buffer i at slot 2i+n |
| `SingleBuffer.FormatResultBuff` | src/gpu_check/single_buffer/single_buffer_cl_buffer.c:154-178 | the in-place compaction leaves min(front, 4096+back) of the original region results in slot i and no other slot changed |
| `SingleBuffer.HalvesMakeWhole` | src/gpu_check/single_buffer/single_buffer_cl_buffer.c:154-178 | combining a buffer's two region answers gives its whole-canary answer |
| `SingleBuffer.VerifyClBufferSingle` | src/gpu_check/single_buffer/single_buffer_cl_buffer.c:94-259 | for every schedule: every buffer's own first bad canary offset, and both regions mended |
| `Strategies.CheckBuffers` | src/detector/bufferOverflowDetect.c:218-267 | host scan, copied-canary kernel, SVM-pointer kernel and single-buffer kernel all establish one postcondition |
| `Strategies.RunBoth` | src/detector/bufferOverflowDetect.c:218-267 | two strategies, each run on its own copy of one memory, return equal reports and leave equal memory outside the detector's own |
| `Strategies.CheckedIsClean` | src/detector/check_utils.c:199-240 | checking again after a check reports nothing |
| `Reports.Reporter.ReportKernelOverflows` | src/gpu_check/gpu_check_utils.c:166-191 | prints and counts exactly the results below INT_MAX, in order |
| `Reports.LinesNameCorruptedBytes` | src/gpu_check/gpu_check_utils.c:166-191 | a buffer is named if and only if its canary is corrupted, and the printed position stands for its first corrupted canary byte |
| `ImageReports.ReportImage` | src/detector/overflow_error.c:340-358 | an image is reported if and only if its canary is dirty, and for every image the decoder serves the printed line points at the first corrupted canary pixel in flat order |
| `ImageReports.FirstInFlatOrder` | src/detector/overflow_error.c:120-175 | the pixel holding the reported byte is corrupted and every canary pixel before it is clean |
| `ImageGeometry.ExpandedDims` | src/utils/cl_utils.c:75-108 | after expansion the dimension rules recover the user's extent for all six image types, and the pixel counts are the products of the limits |
| `ImageGeometry.ContractExpand` | src/cl_wrapper/cl_interceptor.c:1504-1521 | the contraction of clReleaseMemObject undoes expandLastDimForFill for all six image types |
| `ImageGeometry.CanarySizeIsFlatSize` | src/utils/cl_utils.c:47-73 | the allocated canary length equals the number of flattened canary pixels |
| `ImageGeometry.PixelOfPos` | src/gpu_check/gpu_check_utils.c:113-153 | every canary pixel has a position inside the canary array, and looking the position up gives the pixel back |
| `ImageGeometry.PosOfPixel` | src/gpu_check/gpu_check_utils.c:113-153 | every position of the canary array holds a canary pixel whose position it is: no gap and no overlap |
| `ImageCopy.RowIsSegment` | src/gpu_check/gpu_check_utils.c:117-128 | the copied row end is a run of consecutive flat positions |
| `ImageCopy.SliceIsSegment` | src/gpu_check/gpu_check_utils.c:131-141 | the copied slice end is a run of consecutive flat positions |
| `ImageCopy.DepthIsSegment` | src/gpu_check/gpu_check_utils.c:144-155 | the copied trailing slices are a run of consecutive flat positions |
| `ImageCopy.CopyImageCanaries` | src/gpu_check/gpu_check_utils.c:75-164 | the row, slice and depth copies fill the whole flat array at the offset and nothing else, and every event slot is used once |
| `ImageCopy.ReadImageCanaries` | src/cpu_check/cpu_check_cl_image.c:35-191 | the host reader builds the same flat array, with as many reads as number_of_image_reads says |
| `ImagePoison.PoisonFillImageCanaries` | src/detector/check_utils.c:68-168 | writes the fill to exactly the complement of the user extent |
| `ImagePoison.FlatCleanIffPixelsClean` | src/detector/check_utils.c:68-168 | the flat array is all fill exactly when every canary pixel is |
| `ImageFill.AllocFlatImageCopy` | src/cl_wrapper/wrapper_utils.c:90-152 | row by row: user bytes are host bytes or zero, every other byte of the expanded array is 0xC2 |
| `ImageFill.FlatFillPartitions` | src/cl_wrapper/wrapper_utils.c:90-152 | a canary pixel is all fill and a user pixel holds the source's bytes: no fill write touches a user pixel |
| `ImageFill.UploadCoversCanary` | src/cl_wrapper/cl_interceptor.c:1098-1112 | the creation upload reaches every canary pixel if and only if the image is not an array |
| `ImageFill.CreateCanariedImage` | src/cl_wrapper/cl_interceptor.c:1052-1112 | a created non-array image has a clean canary and the user's content; an array image keeps device garbage where the upload does not reach |
| `ImageHostRows.HostRowsExact` | src/cl_wrapper/wrapper_utils.c:110-133 | the copy loop finds every host row where the OpenCL pitches put it if and only if the pitches agree, in terms of row pitch, slice pitch and pixel size |
| `ImageHostRows.DefaultPitchFails` | src/cl_wrapper/wrapper_utils.c:110-133 | a two-row image of 4-byte pixels with default pitches is read from the wrong place |
| `ImageDecode.GetImageCanaryXYZ` | src/detector/overflow_error.c:120-175 | the accumulating search computes the closed form of the decoding |
| `ImageDecode.DecodesNonArrays` | src/detector/overflow_error.c:120-175 | for 1D, 2D and 3D images decoding the flat position of any canary pixel gives its columns, rows or slices past the end, with -1 in the unused places |
| `ImageDecode.DecoderExact` | src/detector/overflow_error.c:120-175 | the decoder is right for every canary position if and only if the image is not an array or has one layer |
| `ImageDecode.OneDArrayFails` | src/detector/overflow_error.c:120-175 | in every 1D array of two or more layers, a position the decoder gets wrong |
| `ImageDecode.TwoDArrayFails` | src/detector/overflow_error.c:120-175 | in every 2D array of two or more layers, a position the decoder gets wrong |
| `ImageKernel.FindCanaryEnds` | src/gpu_check/copy_canary/copy_canary_cl_image.c:33-59 | the ends are the prefix sums of the canary lengths |
| `ImageKernel.OwnerAt` | src/gpu_check/gpu_check_kernels.cpp:123-140 | work-item SumTo(b) + p belongs to image b at local offset p |
| `ImageKernel.ImagesReported` | src/gpu_check/gpu_check_kernels.cpp:123-140 | for every schedule every image gets the first bad offset of its own canary array |
| `ImageChecks.VerifyImages` | src/cpu_check/cpu_check_cl_image.c:208-309 | host check of images: first bad offsets of the flattened canaries, images mended, user pixels untouched |
| `ImageChecks.VerifyClImagesCopy` | src/gpu_check/copy_canary/copy_canary_cl_image.c:160-227 | the batched kernel check of images establishes the same postcondition as the host check |
| `ImageChecks.CheckedImageIsClean` | src/detector/check_utils.c:68-168 | an image whose canary pixels are the fill, as a check leaves them, is reported clean |
| `PictureChecks.CheckPictures` | src/detector/bufferOverflowDetect.c:218-267 | either image check reports each image's first bad canary offset and leaves each image mended |
| `ApiGuards.LinearGuardExact` | src/cl_wrapper/wrapper_utils.c:222-249 | flags exactly the transfers that leave the buffer unless offset+size wraps, and then exactly when the wrapped end is out |
| `ApiGuards.LinearGuardReports` | src/detector/overflow_error.c:207-226 | the number printed stands for the first byte past the end that the transfer touches if and only if that is less than 2^32 - 1 bytes past it |
| `ApiGuards.WrappedTransferSlips` | src/cl_wrapper/wrapper_utils.c:222-249 | a transfer whose end wraps passes for a buffer of any size it leaves |
| `ApiGuards.RectGuardAdmitsInBounds` | src/cl_wrapper/wrapper_utils.c:251-291 | an in-bounds rectangle is never rejected |
| `ApiGuards.RectGuardExact` | src/cl_wrapper/wrapper_utils.c:251-291 | for every rectangle: the guard agrees with section 5.2.2 of the OpenCL 1.2 specification for every buffer size if and only if the pitches are tight and the end of the rectangle is below 2^64 |
| `ApiGuards.RectGuardReports` | src/cl_wrapper/wrapper_utils.c:251-291 | the number printed for a rectangle stands for its first byte, or the first byte past the end if it starts before that, under the same condition |
| `ApiGuards.PaddedRectSlips` | src/cl_wrapper/wrapper_utils.c:251-291 | two one-byte rows ten bytes apart pass for a five-byte buffer |
| `ApiGuards.WrappedRectSlips` | src/cl_wrapper/wrapper_utils.c:251-291 | a tight rectangle that ends past 2^64 passes for a five-byte buffer |
| `ApiGuards.ImageGuardExact` | src/cl_wrapper/wrapper_utils.c:293-365 | for every 64-bit box: flagged if and only if, in some dimension, the wrapped end exceeds the user's limit or, where nothing was expanded, 2^64 + 1 - pad |
| `ApiGuards.ImageGuardRight` | src/cl_wrapper/wrapper_utils.c:293-365 | for every 64-bit box: the verdict is right if and only if not every dimension in which the box leaves the user extent wraps back inside, and a box inside raises no alarm in a dimension the image does not have |
| `ImageReports.ImageGuardReports` | src/cl_wrapper/wrapper_utils.c:318-363 | for every transfer of some pixels that leaves the user extent, and whose sums do not wrap, the message printed points at its first pixel past the extent in the highest dimension it leaves, with the other coordinates of its origin, if and only if the numbers fit an int |
| `ApiGuards.WrappedBoxSlips` | src/cl_wrapper/wrapper_utils.c:293-365 | a box past the end of an eight-pixel row is let through, and an empty box is flagged without cause |
| `ApiGuards.AdmittedBoxIsUser` | src/cl_wrapper/wrapper_utils.c:293-365 | a box passed by guard and driver lies inside the user extent |
| `ApiGuards.OwnTransfersUseDeviceExtent` | src/cl_wrapper/wrapper_utils.c:293-365 | with canary access allowed every 64-bit box is held, by its wrapped ends, to the expanded extent |
| `KernelArgs.FindDuplicates` | src/detector/bufferOverflowDetect.c:68-101 | dupe[i] is the least index holding the same handle |
| `KernelArgs.DupeIsRepresentative` | src/detector/bufferOverflowDetect.c:68-101 | dupe is idempotent, and two arguments share a representative exactly when they are the same object |
| `KernelArgs.CountObjects` | src/detector/bufferOverflowDetect.c:121-168 | the counting pass counts what the filling pass will list |
| `KernelArgs.CollectObjects` | src/detector/bufferOverflowDetect.c:170-215 | the lists are filled exactly: unique buffers, then user SVM if any argument is SVM, images apart |
| `KernelArgs.CollectsEachObjectOnce` | src/detector/bufferOverflowDetect.c:170-192 | every distinct cl_mem object among the arguments is listed exactly once |
| `KernelArgs.CollectsUserSvm` | src/detector/bufferOverflowDetect.c:194-212 | the SVM part lists exactly the allocations that are not the detector's own |
| `KernelArgs.UserSvmNoDuplicates` | src/detector/bufferOverflowDetect.c:194-212 | ... each once |
| `CheckLists.NamesAreReached` | src/detector/bufferOverflowDetect.c:121-215 | the collected list holds exactly the linear objects the launch can reach |
| `Runs.StepKeeps` | src/cl_wrapper/cl_interceptor.c:2183-2300 | every creation, guarded write, launch and release, and every write of the host program, keeps all canaries clean, array images no launch has visited excepted |
| `Runs.RunKeeps` | src/cl_wrapper/cl_interceptor.c:2183-2300 | over every run the invariant holds before every operation |
| `Runs.WholeRunKeeps` | src/cl_wrapper/cl_interceptor.c:2183-2300 | ... in particular over every run that starts with nothing live |
| `Runs.EveryLaunchReportsExactly` | src/cl_wrapper/cl_interceptor.c:2183-2300 | in every run a launch reports a buffer or SVM allocation with canaries if and only if its kernel changed a canary byte, and the report is the least changed offset |
| `Runs.EveryLaunchReportsClones` | src/cl_wrapper/cl_interceptor.c:2183-2300 | in every run a launch reports a buffer over host memory if and only if its kernel left a canary byte of the clone different from the fill, and the report is the least such offset |
| `Runs.EveryLaunchReportsImages` | src/cl_wrapper/cl_interceptor.c:2183-2300 | in every run a launch reports an image of the table among its arguments if and only if a canary pixel is not the fill after the kernel |
| `Runs.EveryLaunchReportsChanges` | src/cl_wrapper/cl_interceptor.c:2183-2300 | ... that is, array images no launch has visited excepted, if and only if the kernel changed one of its canary pixels |
| `Histories.RunTracksHandles` | src/cl_wrapper/cl_interceptor.c:1049-1128 | in every run the tables have under a cl_mem handle exactly what was last created under it and not released since, where its bytes are or how it is described; an image created with CL_MEM_USE_HOST_PTR is not among the tool's |
| `Histories.RunTracksSvm` | src/cl_wrapper/cl_interceptor.c:1970-1980 | in every run an SVM allocation is in the table, at its place and with its detector_internal_buffer mark, if and only if it was made and not freed since |
| `Histories.RunTracksNull` | src/cl_wrapper/cl_interceptor.c:1113-1128 | in every run there is a null record if and only if an image was created with CL_MEM_USE_HOST_PTR since null was last released |
| `Histories.EveryLaunchChecksArguments` | src/cl_wrapper/cl_interceptor.c:1741-1750 | in every run a launch finds every object whose handle is among the argument values: a buffer with canaries is reported for exactly the changes of the kernel, a buffer over host memory by its clone, an image unless it was created with CL_MEM_USE_HOST_PTR, which ends as the kernel left it, unreported |
| `Histories.EveryLaunchVisits` | src/cl_wrapper/cl_interceptor.c:1741-1750 | in every run a launch visits a buffer with canaries if and only if its handle is among the argument values |
| `Histories.EveryLaunchChecksSvm` | src/detector/bufferOverflowDetect.c:107-267 | in every run a launch checks an SVM allocation if and only if the user made it, has not freed it, and some argument value points into any allocation; the report is exact |
| `Histories.NullArgumentEndsRun` | src/detector/bufferOverflowDetect.c:415-510 | in every run, while there is a null record, no launch with an eight-byte zero among its arguments comes to an end |
| `UserViews.EveryStepMeansBytes` | src/cl_wrapper/cl_interceptor.c:2644-2680 | in every run every operation but launches leaves in every buffer and allocation what its name says, as if there were no canaries: its first content, or the old content with a write that fits, and all others unchanged |
| `UserViews.EveryStepMeansPixels` | src/cl_wrapper/cl_interceptor.c:2890-2947 | ... and in every image: what it was created from, the host bytes at the offsets of the specification if the pitches agree; boxes written that lie inside the user's extent; all others unchanged |
| `Runs.HostImageUnchecked` | src/cl_wrapper/cl_interceptor.c:1741-1750 | whatever a kernel does to an image over host memory, the launch is a step of a run that reports nothing |
| `Runs.HostImageRun` | src/cl_wrapper/cl_interceptor.c:1113-1128 | ... for one: from nothing live, an image over host memory is created, a launch overwrites it, and nothing is reported |
| `Staging.StagesKeeps` | src/detector/bufferOverflowDetect.c:361-523 | once the clones are made every canary is clean, those of the clones included |
| `Staging.ImageValues` | src/cl_wrapper/cl_interceptor.c:1741-1750 | a value names an image of the table, or an image the table does not have, if and only if it is the handle of one, eight bytes long, or zero while there is a null record |
| `Staging.BufferValues` | src/cl_wrapper/cl_interceptor.c:1741-1750 | a value names a buffer, with canaries or over host memory, if and only if it is the handle of one, eight bytes long |
| `Staging.PointerValues` | src/cl_wrapper/cl_interceptor.c:1848-1860 | a value points into an SVM allocation if and only if the table has that allocation and the offset is at most its size |
| `Staging.LiveUnlessNull` | src/cl_wrapper/cl_interceptor.c:1741-1750 | the values of a launch name live objects with canaries, host buffers, images the tool takes for plain values, or nothing, if and only if none is an eight-byte zero while there is a null record |
| `Staging.ArgumentsMended` | src/detector/check_utils.c:68-240 | after the check every canary byte of every live object and clone is the fill, and so is the canary of every image argument; after the launch the canaries of all the user's live objects are |
| `Staging.LaunchesKeeps` | src/cl_wrapper/cl_interceptor.c:2183-2300 | a launch of any kernel, on arguments with or without canaries, keeps the invariant |
| `Staging.LaunchReports` | src/cl_wrapper/cl_interceptor.c:2183-2300 | an argument with canaries is reported if and only if the kernel changed one of its canary bytes |
| `Staging.HostBufferReports` | src/cl_wrapper/cl_interceptor.c:2183-2300 | an argument without is reported if and only if the kernel left a canary byte of its clone different from the fill, at the least such offset |
| `Staging.HostBytesReturn` | src/detector/bufferOverflowDetect.c:539-617 | a buffer over host memory ends with the user bytes the kernel left in its clone, check and mend notwithstanding |
| `Staging.HostMemorySafe` | src/cl_wrapper/cl_interceptor.c:2183-2300 | memory the kernel can not reach and no clone stands for keeps its bytes, whatever the kernel does |
| `Staging.VisitedImages` | src/detector/bufferOverflowDetect.c:107-267 | a launch visits an image if and only if it is an argument and has a canary |
| `Staging.VisitedLinear` | src/detector/bufferOverflowDetect.c:107-267 | a launch visits a buffer or allocation with canaries if and only if the user's arguments reach it |
| `Staging.UnseenAsLeft` | src/detector/bufferOverflowDetect.c:361-523 | an image over host memory is neither cloned nor reported, and ends as the kernel left it |
| `RunModel.CleanImageReports` | src/cl_wrapper/cl_interceptor.c:2226-2262 | a launch reports a clean image if and only if it changed one of its canary pixels |
| `RunModel.LaunchReportsImage` | src/cl_wrapper/cl_interceptor.c:2226-2262 | any image is reported if and only if a canary pixel is not the fill after the kernel |
| `RunModel.CheckPossible` | src/detector/bufferOverflowDetect.c:107-267 | whatever a kernel has done, the check has a result |
| `RunModel.ArrayImageFalseReport` | src/cl_wrapper/cl_interceptor.c:1098-1112 | every array image can be created with a dirty canary, and is then reported by a launch that wrote nothing |
| `RunModel.LaunchKeepsUserBytes` | src/detector/check_utils.c:199-240 | mending leaves every user byte as the kernel left it |
| `RunModel.WriteKeepsClean` | src/cl_wrapper/cl_interceptor.c:2925-2939 | an accepted image write cannot touch a canary pixel |
| `Session.Detector.CreateBuffer` | src/cl_wrapper/cl_interceptor.c:708-829 | placing the staging copy is the creation step of a run |
| `Session.Detector.CreateHostBuffer` | src/cl_wrapper/cl_interceptor.c:701-803 | a buffer over host memory is recorded without canary, in place |
| `Session.Detector.AllocSvm` | src/cl_wrapper/cl_interceptor.c:1942-1980 | filling both regions is the allocation step |
| `Session.Detector.CreateImage` | src/cl_wrapper/cl_interceptor.c:1052-1112 | creating an image is the creation step |
| `Session.Detector.CreateHostImage` | src/cl_wrapper/cl_interceptor.c:1113-1128 | an image over host memory has no record under its handle; there is a null record instead |
| `Session.Detector.EnqueueWriteBuffer` | src/cl_wrapper/cl_interceptor.c:2644-2680 | a guarded buffer write is the write step, with canaries or without |
| `Session.Detector.EnqueueWriteImage` | src/cl_wrapper/cl_interceptor.c:2890-2947 | an image write is the write step: guarded for an image of the table, held by the driver alone for one the table does not have |
| `Session.Detector.ReleaseMemObject` | src/cl_wrapper/cl_interceptor.c:1477-1560 | releasing the last reference forgets the object and nothing else; releasing null forgets the null record |
| `Session.Detector.SvmFree` | src/cl_wrapper/cl_interceptor.c:1996-2041 | freeing an SVM allocation removes exactly its entry |
| `Session.Detector.VerifyBufferInBounds` | src/detector/bufferOverflowDetect.c:107-267 | collection, check by any strategy, mend: every object the kernel could reach is reported by its least corrupted canary offset and left clean |
| `Session.Detector.SetKernelArg` | src/cl_wrapper/cl_interceptor.c:1741-1750 | an argument is what the table has under its value |
| `Session.Detector.CreatePoisonedKernel` | src/detector/bufferOverflowDetect.c:361-523 | every distinct host buffer among the arguments has a clone holding its bytes inside a canary of fill, aliases share it, pointers into SVM allocations become their bases, and nothing else changes; without such a buffer nothing happens; the process exits if and only if an argument matches the null record |
| `Session.Detector.RunKernel` | src/cl_wrapper/cl_interceptor.c:2165-2180 | the items acting one by one in the order of the schedule leave what the run of the kernel specifies |
| `Session.Detector.CopyKernelBuffers` | src/detector/bufferOverflowDetect.c:539-617 | each replaced buffer receives what its clone holds in the user's extent, and nothing else changes |
| `Session.Detector.DelPoisonKernel` | src/detector/bufferOverflowDetect.c:279-324 | exactly the clones are released |
| `Session.Detector.KernelLaunch` | src/cl_wrapper/cl_interceptor.c:2183-2300 | the process exits if and only if an argument matches the null record; otherwise clone, run, check, mend, copy back and release are the launch step of a run, with its reports, for every kernel whose stores stay inside what the launch reaches |
| `CloneSteps.NewArgsAlias` | src/detector/bufferOverflowDetect.c:68-101 | the duplicate analysis of the user's arguments holds for the clone's: they alias alike |
| `KernelRuns.ContainedRun` | src/cl_wrapper/cl_interceptor.c:2165-2180 | a run whose stores go into given addresses changes nothing but those and the pixels of its image arguments, whatever it reads |
| `KernelRuns.DeviceRun` | src/cl_wrapper/cl_interceptor.c:2165-2180 | on flat memory and rasters every run leaves every object with the bytes and pixels the kernel means, and stores only into the arguments' windows |
| `StagedRuns.InsideIsKernelRan` | src/cl_wrapper/cl_interceptor.c:2165-2180 | a kernel whose stores stay inside the reached storage does what a run allows a kernel, with no condition on its reads |
| `StagedRuns.StageBindings` | src/detector/bufferOverflowDetect.c:415-421 | the kernel that runs finds its objects where the user's arguments point if and only if no pointer into an SVM allocation has an offset or the kernel is not duplicated |
| `StagedRuns.StageRun` | src/detector/bufferOverflowDetect.c:361-523 | on every stage a kernel that reads in range and stores within the canaries, its SVM pointers kept, stays inside and computes its meaning |
| `LaunchMeaning.BehavedStaysInside` | src/cl_wrapper/cl_interceptor.c:2183-2300 | a kernel that reads in range and stores within the canaries meets the condition of KernelLaunch on every stage |
| `LaunchMeaning.LaunchMeans` | src/cl_wrapper/cl_interceptor.c:2183-2300 | such a kernel leaves in every object of the user, images over host memory included, by way of clones or not, the bytes and pixels it means to leave there; stores into canaries are lost |
| `Runs.EveryLaunchMeans` | src/cl_wrapper/cl_interceptor.c:2183-2300 | ... in every launch of every run |
| `LaunchMeaning.SameAsOriginal` | src/cl_wrapper/cl_interceptor.c:2183-2300 | a kernel in range leaves, after the launch on clones, what it would have left running on the user's own objects, if no SVM pointer loses its offset |
| `LaunchMeaning.RebasedStore` | src/detector/bufferOverflowDetect.c:415-421 | beside a host buffer, a store through a pointer into an SVM allocation goes to the start of the allocation, where the original launch stores at the pointer |
| `SvmCache.SvmTables.ClSvmFgAlloc` | src/meta_data_lists/cl_workaround_lists.cpp:47-57 | records a region in its context only |
| `SvmCache.SvmTables.ClSvmFgFree` | src/meta_data_lists/cl_workaround_lists.cpp:59-82 | moves the region from the allocated to the free table of its context and returns 0 if there is one, and 1 otherwise |
| `SvmCache.SvmTables.FindFreeSvm` | src/meta_data_lists/cl_workaround_lists.cpp:84-113 | the search from the lower bound finds the first fitting region and moves it back |
| `SvmCache.SvmTables.ClSvmAlloc` | src/cl_wrapper/cl_interceptor.c:1870-1906 | a request is served from the cache or the driver and recorded as the user's |
| `SvmCache.SvmTables.ClSvmFree` | src/cl_wrapper/cl_interceptor.c:1996-2042 | goes on to the driver if and only if the allocation is the user's and not a region of the cache |
| `SvmCache.FreeConserves` | src/meta_data_lists/cl_workaround_lists.cpp:59-82 | freeing keeps every region in exactly one table and loses none |
| `SvmCache.ReuseIsBestFit` | src/meta_data_lists/cl_workaround_lists.cpp:84-113 | a reuse returns a region that was not live, the smallest free one large enough with equal alignment, and gives up only when there is none |
| `SvmCache.RunKeeps` | src/cl_wrapper/cl_interceptor.c:1870-1906 | over every run the regions of the cache are exactly those the driver created for it, each in one table, none ever freed |
| `SvmCache.DriverAgrees` | src/cl_wrapper/cl_interceptor.c:1996-2042 | over every run what the driver has given out and not been told to free is exactly what is recorded as the user's or as spare, and nothing is both |
| `SvmCache.DriverFreesExactly` | src/cl_wrapper/cl_interceptor.c:2030-2041 | in every run the driver is told to free memory if and only if the user frees an allocation of his that the cache does not have; it is the driver's to free, and then in no table |
| `SvmCache.NeverHandedOutTwice` | src/cl_wrapper/cl_interceptor.c:1870-1906 | between two requests that receive the same memory, new or cached, the user freed it |
| `SvmLookup.SvmTable.Find` | src/meta_data_lists/cl_memory_lists.cpp:81-118 | the predecessor search returns what a linear scan returns: the allocation whose closed range holds the pointer, or none |
| `SvmLookup.HolderUnique` | src/meta_data_lists/cl_memory_lists.cpp:81-118 | at most one allocation holds a pointer |
| `SvmLookup.SvmTable.UpperBound` | src/meta_data_lists/cl_memory_lists.cpp:90-96 | the first position whose handle is greater than the key |
| `Accounting.MemoryStats.CreateBuffer` | src/cl_wrapper/cl_interceptor.c:677-741 | what clCreateBuffer adds to the counters and marks |
| `Accounting.MemoryStats.CreateImage` | src/cl_wrapper/cl_interceptor.c:1028-1128 | what clCreateImage adds to the counters, under which handle it files the record, and which failures end the process |
| `Accounting.MemoryStats.SvmAlloc` | src/cl_wrapper/cl_interceptor.c:1922-1945 | what clSVMAlloc adds |
| `Accounting.MemoryStats.ReleaseMemObject` | src/cl_wrapper/cl_interceptor.c:1477-1534 | the last release takes off bytes by the mode of the releasing thread, the user part of an image recovered by contraction |
| `Accounting.MemoryStats.SvmFree` | src/cl_wrapper/cl_interceptor.c:1996-2015 | clSVMFree takes off the allocation's bytes by the mode of the freeing thread |
| `Accounting.CountersAreSums` | src/cl_wrapper/cl_interceptor.c:677-741 | over every run the current counters are the sums over the objects that exist, those no record names included, plus the drift of the calls made, and the high-water marks are the maxima reached |
| `Accounting.MarksAreMaxima` | src/cl_wrapper/cl_interceptor.c:1073-1079 | over every run each high-water mark bounds its counter in all states and is its value in one |
| `Accounting.TotalsAreAsked` | src/cl_wrapper/cl_interceptor.c:1034-1081 | the totals are what all creations of the run asked for, refused ones included |
| `Accounting.BufferStorageCounted` | src/cl_wrapper/cl_interceptor.c:677-741 | what is counted for a buffer or allocation is the storage it takes, its canaries included |
| `Accounting.ImageStorageCounted` | src/cl_wrapper/cl_interceptor.c:1028-1081 | what is counted for an image with canary is its expanded extent, the user's part his own |
| `Accounting.ReferencesAreCounted` | src/cl_wrapper/cl_interceptor.c:1448-1534 | in every run an object exists, with the record it was created with, exactly while 1 + retains - releases since its creation is positive, and its count is that number; the table has it unless it is an image over host memory |
| `Accounting.NullRecordIs` | src/cl_wrapper/cl_interceptor.c:1477-1534 | in every run the same for the null record, which describes the first image without record of its own |
| `Accounting.DriftsUnlessHarmless` | src/cl_wrapper/cl_interceptor.c:1477-1534 | a call moves a counter away from the sums if and only if it is a failed creation with bytes to count, the last release of an image over host memory, a last release in another mode than the creation, an internal release of a host-pointer buffer, or a release of the null record |
| `Accounting.ExactIffHarmless` | src/cl_wrapper/cl_interceptor.c:1922-1947 | the counters equal the sums after every call of a run if and only if every call of it is harmless |
| `Accounting.FailedAllocationStaysCounted` | src/cl_wrapper/cl_interceptor.c:1922-1947 | an allocation the driver refuses stays counted |
| `Accounting.CallbackFreeDrifts` | src/gpu_check/gpu_check_utils.c:190-232 | SVM copies freed by the callback thread are taken off the user's counter and stay on the detector's |
| `Accounting.InternalHostBufferDrifts` | src/universal_copy/cl_buffer_copy.c:89-96 | releasing a host-pointer buffer of the detector takes off a canary it never had |
| `Accounting.HostImageDrifts` | src/cl_wrapper/cl_interceptor.c:1477-1534 | an image over host memory, created and released, stays counted with nothing left |
| `Accounting.NullReleaseDriftsBack` | src/cl_wrapper/cl_interceptor.c:1115-1130 | releasing the null handle takes off what the first image over host memory left counted, whether the driver made the image or not |

## Left out

- The OpenCL runtime, dlopen interception, platform queries and driver workarounds: memory operations are updates of byte arrays, and event waits are the order of statements.
- Contexts: canaries of objects in another context reach the checker through copies that are assumed to copy, and the host checker's skipping of SVM allocations of other contexts is not modelled.
- Logging, colours, backtraces, environment variables, timing and the names in messages; a report is a handle and a position.
- Exit-on-overflow mode, in which canaries are not mended before the process ends.
- OpenCL 1.x builds, where each work-item commits its own atomic_min; this is the model with work-groups of size 1.
- Sub-buffers, mapped buffers, and `clEnqueueSVMFree`.
- SVM transfers by API calls and host writes to SVM memory: the detector does not guard them, so the runs contain none.
- Rectangular transfers, buffer-image copies and fills as writes of a run; their guards are modelled alone.
- The image path of the single-buffer strategy, which passes one image per launch.
- 32-bit overflow of image sizes and canary lengths: products are assumed to fit, except in the API guards, where 64-bit wrap-around is modelled.
- The format table of `getImageDataSize`: the bytes of a pixel are a parameter.
- Size queries of a kernel: `get_image_width` on an image with canary gives the expanded width, and sampling beyond the user's extent reads canary pixels; the kernels of `KernelRuns` are not told sizes, and the meaning is stated for reads in range.
- Host checking of SVM through mapped copies is the same scan as for cl_mem buffers, which stands for both.
- The container templates (src/meta_data_lists/generic_lists.hpp): tables are finite maps or ordered sequences.
- Session.Detector.KernelLaunch: stores outside the expanded storage of the objects a launch reaches are excluded by its precondition; no canary can tell of them.
- Host buffers that overlap each other: section 5.2.1 of the OpenCL 1.2 specification leaves their content undefined, so a run creates none.
- Images created from a buffer object (`image_desc->buffer`): the tool treats them like images over host memory, and that their pixels are the buffer's bytes is not modelled.
- The image branch of `createPoisonedKernel` up to the copy that fails, and the image branch of `copyKernelBuffers`: only the null record reaches the first, and none the second.
- Arguments are looked up in the tables as they are at the launch, not as they were when the argument was set; an object released in between has a dangling record in the code.
- Null records left by failed `clCreateImage2D` and `clCreateImage3D` calls are in `Accounting` only; the runs have creations that succeed.
- StagedRuns.StageBindings: speaks of SVM arguments that are the user's allocations; pointers outside every allocation are plain values.
- Session.Detector.CreateImage: device memory behind a new image is taken to hold zeros, one of the contents `RunModel.CreatesImage` allows.
- SvmLookup.SvmTable.Find: takes live allocations to lie at least two canary regions apart, as their placement makes them.
- Queue caching, kernel leaking, `add_profiling` and the other list wrappers.
- SvmCache.DriverAgrees: the runs are those of one context; freeing an allocation through a context other than its own is not among them.
- SvmCache.SvmTables.ClSvmAlloc: the SVM table is the set of main buffers; the user's access flags are not recorded, as the cache overwrites them.
