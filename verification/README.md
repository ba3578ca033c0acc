# downsample_images, modelled in Dafny

`scripts/downsample_images.py` walks a tree of images. It shrinks every image to a
quarter of its width and height and writes the result at the same relative path
under an output tree. This project models the decisions the script makes around
its library calls, and proves properties of them:

- `Extensions`: which files count as images. The script takes Python's
  `os.path.splitext` extension of the file name, lower-cases it and looks it up in
  an allow-list of seven extensions.
- `Downsample`: one call of `downsample_image`. The new size is `int(dim * scale)`,
  with the scale as a rational num/den (default 1/4). A failure of the image
  library, directory creation or saving is caught and reported.
- `Paths`: paths as sequences of components, with `relpath`, `dirname` and the
  POSIX string rendering.
- `Walk`: `process_directory`. It counts every file, dispatches the image files to
  `downsample_image` with their mirrored output paths, and counts each dispatch.
  The loop is the method `ProcessDirectory`. The fold `Process` is its reference
  definition. `Selected` is an independent definition of which files are dispatched.

The libraries are not modelled; they are parameters. The filesystem walk is the
input sequence of `Entry` values, in any order. A `Disk` says which input paths
decode to a picture of what size, and at which output paths resizing, directory
creation or saving raises.

`os.makedirs` (line 28) is inside the `try` block, so a failure to create the
output directory is caught like any other: it is one of the failures folded into
`Disk.failing`. `processed_files` (line 74) is incremented after every call of
`downsample_image`, whatever its outcome, so it counts dispatches, not successes.

## Model

| member | source | states |
|---|---|---|
| Extensions.RFind | scripts/downsample_images.py:61 | the index returned holds the character, and no later index does; -1 only when the character is absent |
| Extensions.SplitExt | scripts/downsample_images.py:61 | root and extension concatenate back to the name; a non-empty extension is a '.' followed by no further '.' or '/' |
| Extensions.RFindUnique | scripts/downsample_images.py:61 | the last occurrence is unique, so any index with the last-occurrence properties is the one `RFind` returns |
| Extensions.ExtensionSound | scripts/downsample_images.py:61 | a non-empty `splitext` extension is a dot-suffix of the last component that has a non-dot character before it |
| Extensions.ExtensionComplete | scripts/downsample_images.py:61 | any such dot-suffix is exactly what `splitext` returns |
| Extensions.ExtensionCharacterised | scripts/downsample_images.py:61 | both directions: `splitext` returns e, non-empty, if and only if e is the extension in the reference sense |
| Extensions.ImageNameCharacterised | scripts/downsample_images.py:49-62 | a name is selected if and only if it has an extension, in the reference sense, whose lower-case form is one of .jpg .jpeg .png .gif .bmp .tiff .webp |
| Extensions.LowerPointwise | scripts/downsample_images.py:61 | the ASCII `Lower` (see Extensions.LowerChar under Left out) keeps the length and lower-cases each character on its own, independently of its neighbours |
| Extensions.LowerIdempotent | scripts/downsample_images.py:61 | lower-casing twice is the same as lower-casing once |
| Extensions.ExtensionOfLower | scripts/downsample_images.py:61 | taking the extension commutes with lower-casing |
| Extensions.ClassifierIgnoresCase | scripts/downsample_images.py:61-62 | two names equal up to case are both selected or both rejected |
| Extensions.NoDotNoImage | scripts/downsample_images.py:61-62 | a name without '.' has an empty extension and is never selected |
| Extensions.LeadingDotsNoImage | scripts/downsample_images.py:61-62 | a name whose dots all come before its other characters (".png", "..gif") has an empty extension and is never selected |
| Extensions.CaseExamples | scripts/downsample_images.py:49-62 | "photo.JPG" and "photo.jpg" are selected |
| Extensions.LastExtensionExamples | scripts/downsample_images.py:49-62 | only the last extension counts: "archive.tar.png" is selected and "photo.jpg.bak" is not |
| Extensions.RejectedExamples | scripts/downsample_images.py:49-62 | "notes.txt", ".png" and "README" are rejected |
| Paths.RelPath | scripts/downsample_images.py:67 | the relative path exists exactly when the root is a prefix, and the root joined with it gives back the path |
| Paths.RelPathOfJoin | scripts/downsample_images.py:67-70 | round trip: the path of root + rel relative to root is rel |
| Paths.DirName | scripts/downsample_images.py:28 | the directory part with the last component appended gives back the path |
| Paths.RenderAppend | scripts/downsample_images.py:70 | the string of a joined path is the root's string followed by the relative part's string |
| Paths.RenderInjective | scripts/downsample_images.py:64-70 | distinct component paths give distinct path strings, since no component holds '/' |
| Downsample.ScaleDim | scripts/downsample_images.py:21-22 | the new side r is the truncation of dim * num / den: r * den <= dim * num < (r + 1) * den |
| Downsample.ScaleDimUnique | scripts/downsample_images.py:21-22 | exactly one whole number meets those truncation bounds |
| Downsample.DefaultScaleQuarters | scripts/downsample_images.py:9-22 | with the default 0.25 the new side is dim / 4, with 4 * new <= dim < 4 * new + 4 and new <= dim; a side becomes 0 exactly when it is below 4 |
| Downsample.ShrinkingScale | scripts/downsample_images.py:21-22 | a scale of at most 1 never enlarges a side |
| Downsample.ScaleDimMonotone | scripts/downsample_images.py:21-22 | a larger side never yields a smaller new side |
| Downsample.DefaultAreaSixteenth | scripts/downsample_images.py:9-22 | with the default scale the new area is at most 1/16 of the old one |
| Downsample.DefaultScaleExamples | scripts/downsample_images.py:21-22 | 800x600 becomes 200x150, and 2x2 becomes 0x0 |
| Downsample.DownsampleImage | scripts/downsample_images.py:18-34 | outside the printing left out below, it saves at the given output path exactly when the input decodes and the output step succeeds, with the scaled size; otherwise it reports a failure naming the input, a decode error exactly when the input does not decode |
| Walk.ProcessDirectory | scripts/downsample_images.py:52-74 | the loop computes the fold: `total` is the number of files walked, `processed` is the number of selected files and never exceeds `total`, and the k-th call is the one for the k-th selected file |
| Walk.ProcessMatchesSelection | scripts/downsample_images.py:56-74 | the fold against the independent selection: counters and calls as above, for every walk |
| Walk.SelectedMembers | scripts/downsample_images.py:61-62 | a file is selected if and only if it was walked and its name is accepted |
| Walk.SelectedMultiset | scripts/downsample_images.py:56-62 | selection keeps each accepted file as many times as it was walked, and no other file |
| Walk.WalkOrderIrrelevant | scripts/downsample_images.py:56-58 | any reordering of the walk gives the same counters and the same calls, each made as often as before (equal multisets of calls) |
| Walk.LogPermutation | scripts/downsample_images.py:56-74 | a permutation of the walked files yields a permutation of the calls |
| Walk.LogOfInsert | scripts/downsample_images.py:56-74 | inserting one file anywhere in the walk adds exactly that file's calls to the log |
| Walk.LogMembers | scripts/downsample_images.py:62-73 | a call is made if and only if it is the call for some selected file |
| Walk.StepAfter | scripts/downsample_images.py:57-74 | one loop iteration after a prefix adds to the prefix's counters and calls |
| Walk.ProcessAppend | scripts/downsample_images.py:56-74 | a walk split in two is processed as its parts in sequence, whatever the first part's calls returned: no failure stops the batch |
| Walk.OutcomesDoNotChangeCounts | scripts/downsample_images.py:73-74 | `processed` counts calls, not successes: counters and call paths are the same whatever the libraries do |
| Walk.AllFailuresStillCounted | scripts/downsample_images.py:73-74 | when nothing decodes, every selected file is still dispatched and counted, and every call reports a decode error |
| Walk.EntryPathInjective | scripts/downsample_images.py:64-67 | a file is determined by its path relative to the input root |
| Walk.InputFileInjective | scripts/downsample_images.py:64 | distinct files have distinct input paths |
| Walk.OutputMirrorsInput | scripts/downsample_images.py:64-70 | the output path is the output root joined with the file's relative path; both paths have the same relative path below their roots, and the output's directory is the output root joined with the file's directory |
| Walk.OutputFileInjective | scripts/downsample_images.py:64-70 | distinct files get distinct output paths, as components and as strings |
| Walk.DispatchedIffSelected | scripts/downsample_images.py:62-74 | a file gets a call, and an output path, if and only if it was walked and its name is accepted; other files are only counted |
| Walk.SelectedDistinct | scripts/downsample_images.py:56-62 | a walk without repeats selects without repeats |
| Walk.OutputsDistinct | scripts/downsample_images.py:64-74 | in a walk without repeats no two calls share an output path string, and each call's output mirrors its input |
| Walk.ProcessTwo | scripts/downsample_images.py:56-74 | a walk of an accepted file then a rejected file counts 2 and 1, and makes the one call for the first file |
| Walk.ScenarioTwoFiles | scripts/downsample_images.py:56-78 | a/photo.jpg (800x600) with b/notes.txt: 2 found, 1 processed, one call saving 200x150 at the mirrored path a/photo.jpg |

## Left out

- Image decoding, LANCZOS resampling and encoding in PIL are not modelled. A `Disk` gives only their observable outcome: whether the input decodes, to what size, and whether the steps after decoding raise.
- The resize to a 0-wide or 0-high size is passed to PIL unchanged, as in the code. Whether PIL rejects it is library behaviour, so it is one of the outcomes a `Disk` can give.
- `os.makedirs` and the directory tree on disk are not modelled; a failure there is caught like any other.
- The filesystem walk itself is the input sequence. `os.walk` order, its silently ignored listing errors, and symbolic links are not modelled.
- `os.path.relpath` is prefix removal. A path outside the root (which would need '..'), '.' components and trailing separators are not modelled. In the walk every file is below the input root.
- Paths are absolute component sequences. `os.path.join` discarding its first argument when the second is absolute cannot arise, since a relative path never starts with '/'.
- Extensions.LowerChar: lower-cases only 'A'..'Z', where Python's `str.lower` maps all of Unicode. Of the non-ASCII characters whose lower case contains an ASCII letter, the Kelvin sign becomes 'k' and capital I with dot above becomes "i" plus a combining dot. No allow-listed extension contains a 'k', and the combining dot matches nothing, so the selection is the same. This argument is not proved.
- Downsample.ScaleDim: the scale is an exact rational, not a float. `int(dim * 0.25)` equals dim / 4 for every size below 2^53. For other float scales, the rounding of the product is not modelled.
- `print` output, the summary lines and the `__main__` choice of the `imgs` and `img_tiny` roots are console and environment plumbing.
- Downsample.DownsampleImage: the two `print` calls are not modelled, and they can raise. The one at line 32 runs after the save inside the `try`, so a raising print turns a saved file into an "Error processing" report (for example a stdout encoding without '→'). The one at line 34 runs in the `except` handler, where nothing catches it, so a raising print there leaves `downsample_image`, skips the increment at line 74 and ends the walk. Both happen for a file name holding a lone surrogate from an undecodable byte, which a Dafny string cannot hold, so such names are outside the model.
- The `Disk` is fixed for the whole run: a save never changes what a later call decodes, and the set of walked files does not depend on the files the run writes. This matches the program when neither root lies inside the other, as with the sibling `imgs` and `img_tiny` roots of lines 85-88. With nested roots (`process_directory("/r", "/r/b")`), an earlier save can overwrite a later input, and `os.walk` can visit files the run created. That case is not modelled.
- Walk.WalkOrderIrrelevant: compares two orders under one fixed `Disk`. This matches the program only when neither root lies inside the other (see the fixed-`Disk` line above); with nested roots the outcomes of the calls, and so the multiset of calls, can depend on the order.
- Walk.LogPermutation: relates two walks under one fixed `Disk`. Like Walk.WalkOrderIrrelevant, this matches the program only when neither root lies inside the other.
- Walk.LogOfInsert: the inserted file's call leaves the other calls' outcomes unchanged only because the `Disk` is fixed. This matches the program only when neither root lies inside the other, since otherwise that file's save could change what a later call decodes.
- Exceptions outside `Exception` (such as `KeyboardInterrupt`) escape the `try` and stop the script; this is not modelled.
