# Image annotation core of an image dataset viewer, in Dafny

The viewer shows images from two collections, `originals` and `datasets`.
On a displayed image the user can draw a crop rectangle or a two-point arrow,
and the back end then crops the image or draws the arrow onto it. This project
models two parts of that and proves properties of them.

- **The annotation state machine of the front end** (`front-end/src/App.tsx`).
  Mouse events over the displayed image become display coordinates,
  clamped to the image. A crop rectangle grows from mouse-down to
  mouse-up. The release keeps it or discards it against a 10-pixel
  threshold. On confirm, the rectangle is scaled to natural pixels and
  rounded. An arrow is a click-driven pair of natural-pixel points. Both are
  gated by the edit mode (`crop` | `arrow`) and the active tab. Selecting
  another image resets both. The file-list bookkeeping lives in the same
  component: the delete set and the paired reference-file and preview-URL
  lists.
- **Path validation of the back end** (`back-end/utils/system_util.py`, with
  the directories of `back-end/config/config.py`). `parse_path` splits
  `"folder/filename"`. `get_image_path` maps a folder to its storage
  directory. `get_txt_path` swaps the last extension for `.txt`.

Layout:

- `wrappers.dfy` (`Wrappers`): `Option` and `Result`.
- `system_util.dfy` (`SystemUtil`): Python's `str.split` and
  `rsplit(".", 1)[0]`, pathlib's `PurePosixPath` and its `/` operator, the
  configured directories, and the three path functions. A pathlib path is a
  value with a root flag and a sequence of components. Components that are
  empty or `.` are dropped, as pathlib drops them. A rooted right operand of
  `/` replaces the left operand.
- `geometry.dfy` (`Geometry`): the pure parts of `App.tsx`, all as functions:
  - `Math.round` as `Floor(x + 0.5)`, and the clamp;
  - `getRelativeCoords`, the arrow's natural-pixel point and
    `getSelectionStyle`;
  - the crop request of `handleConfirmCut`;
  - the crop drag (`Press`, `Drag`, `Release`) and the arrow clicks (`Click`),
    as step functions on small state records.
- `session.dfy` (`Session`): class `App`. Its fields are the component's
  `useState` variables, and its methods are the handlers.
  - Every method states its whole new state through `State()`. Annotation
    changes are stated through the step functions of `Geometry`, so the lemmas
    about those functions carry over to the handlers.
  - `Valid()` is the invariant every handler keeps. Reference files and
    preview URLs stay index-aligned. The box never has a negative coordinate,
    because every corner comes from the clamp of `getRelativeCoords`. A confirmation is offered only for a
    finished box larger than the threshold. An arrow end never exists without
    a start.

Each network call is split in two. The handler returns the request body it
would send. The outcome comes back as an `ok` argument (a rejected promise and
a non-2xx answer are both `ok = false`). A call to `fetchImages` is reported as
a returned `refresh` flag, and a listing that arrives is applied by
`ReceiveImageList`. Browser measurements are arguments. `getBoundingClientRect`
of the image and of its container, `img.width`/`img.height` and
`naturalWidth`/`naturalHeight` are passed in, and `None` stands for a ref
that is not mounted. Coordinates are exact `real`s.

Some behaviours of the code a reader may not expect:

- Selecting another image clears the selection, the confirmation and the arrow,
  but does not reset `isDrawing` (`App.tsx:131-136`). A drag in progress is not
  aborted. The next move finds no box, and the next release only ends the drag.
- Mouse-move and mouse-up are not gated by the edit mode
  (`App.tsx:529, 545`). Only mouse-down and the click are.
- `handleConfirmCut` checks for a box, an image and an image element, not for
  the pending confirmation (`App.tsx:564`). `handleCancelCut` always clears.
- The crop scale divides by the layout size `img.width`/`img.height`
  (`App.tsx:570-571`). The arrow scale divides by the bounding-rectangle size
  (`App.tsx:405-406`). The model keeps both.
- A click outside the image is clamped to the nearest edge and recorded. It is
  not ignored (`App.tsx:401-402`).

The corner and the size of a crop are rounded separately. So the requested
crop can reach one natural pixel past the image's right or bottom edge.
`CropRequestWithinImage` proves that one pixel is the most it can be for a box
within the layout size `img.width`×`img.height`. `CropRequestOvershoot` gives an
input where it happens. The clamp, however, bounds the box by the bounding
rectangle (`App.tsx:500-501`), while the scale divides by the layout size
(`App.tsx:570-571`). The two differ when the rendered width is fractional,
because `img.width` is an integer. `CropRequestWithinRect` proves the general
bound: the crop ends at most one pixel past the rectangle's size, scaled. So
the overshoot beyond the natural image grows with `rect.width − img.width`,
times the scale.

## Model

| member | source | states |
|---|---|---|
| `SystemUtil.Split` | back-end/utils/system_util.py:11 | `split("/")` yields one more piece than there are separators, and no piece contains the separator |
| `SystemUtil.JoinSplit` | back-end/utils/system_util.py:11 | joining the pieces of a split with the separator gives back the original string |
| `SystemUtil.ParsePath` | back-end/utils/system_util.py:10-17 | "Invalid image path" exactly when the path does not contain exactly one `/`; "Invalid folder" exactly when it has one `/` and the folder is neither `originals` nor `datasets`; on success the folder is one of the two, the filename has no `/`, and `folder + "/" + filename` is the input |
| `SystemUtil.ParsePathOfJoined` | back-end/utils/system_util.py:10-17 | the converse round trip: an accepted folder joined to any slash-free filename parses back into exactly those two parts |
| `SystemUtil.PathOfPlainName` | back-end/config/config.py:4 | `PurePosixPath` of a single plain component is the relative path of that component |
| `SystemUtil.JoinPlainName` | back-end/utils/system_util.py:22 | pathlib's `/` with a plain component (no `/`, not empty, not `.`) appends exactly that component |
| `SystemUtil.StorageDirIsPathlib` | back-end/config/config.py:4 | the storage root is the relative path `storage` |
| `SystemUtil.FolderDirIsPathlib` | back-end/config/config.py:5-6 | `storage / "originals"` and `storage / "datasets"` are the two folder directories used by `get_image_path` |
| `SystemUtil.ImagePath` | back-end/utils/system_util.py:20-25 | fails, with "Invalid folder", exactly for folders other than `originals` and `datasets` |
| `SystemUtil.ImagePathInFolder` | back-end/utils/system_util.py:20-25 | a plain filename in an accepted folder maps to `storage/<folder>/<filename>`, with the same name for the collection and its directory |
| `SystemUtil.LastIndexOf` | back-end/utils/system_util.py:29 | finds the last occurrence of the character, or reports that there is none |
| `SystemUtil.StemOf` | back-end/utils/system_util.py:29 | `rsplit(".", 1)[0]` is a prefix of the name: the whole name when there is no dot, otherwise the part before a dot after which no dot follows |
| `SystemUtil.TxtNameExample` | back-end/utils/system_util.py:29-30 | `a.b.png` gives `a.b.txt` and `photo` gives `photo.txt` |
| `SystemUtil.TxtPath` | back-end/utils/system_util.py:28-30 | fails for exactly the folders `get_image_path` rejects |
| `SystemUtil.TxtPathBesideImage` | back-end/utils/system_util.py:28-30 | for a slash-free image name the tag file is `storage/<folder>/<stem>.txt`, in the same directory as the image |
| `SystemUtil.TxtPathOfParsed` | back-end/api.py:109-110 | every path `parse_path` accepts gets a tag file directly inside its folder's storage directory |
| `Geometry.Round` | front-end/src/App.tsx:408-409 | `Math.round` gives the integer within half a unit of the value, halves going up |
| `Geometry.Clamp` | front-end/src/App.tsx:500-501 | the clamped value lies in `[0, limit]`, is unchanged inside it, and becomes 0 below it and `limit` above it |
| `Geometry.RelativeCoords` | front-end/src/App.tsx:485-504 | no coordinates without both elements; otherwise the mouse position relative to the image, exact inside the image, snapped to the nearest edge outside it, plus the image's offset in its container and its rendered size |
| `Geometry.NaturalCoord` | front-end/src/App.tsx:401-409 | one axis of an arrow point lies in `[0, natural]`, is 0 at or before the image's start edge and `natural` at or after its end edge, and is within half a pixel of the exact scaled value |
| `Geometry.ArrowPoint` | front-end/src/App.tsx:394-409 | every recorded arrow point lies in `[0, naturalWidth] × [0, naturalHeight]` |
| `Geometry.ArrowPointCorners` | front-end/src/App.tsx:394-409 | clicks at or beyond the image's top-left and bottom-right corners record `(0, 0)` and `(naturalWidth, naturalHeight)` |
| `Geometry.OverlayWithinHalfPixel` | front-end/src/App.tsx:802-814 | drawing a stored point back at `n / natural` of the rendered size lands within half a natural pixel of the clamped click |
| `Geometry.CropRequestOf` | front-end/src/App.tsx:568-588 | the crop request names the displayed image, has non-negative size, and has a non-negative corner whenever the box does |
| `Geometry.CropRequestOfSpan` | front-end/src/App.tsx:574-577 | the request depends only on the rectangle the box spans, not on the direction of the drag |
| `Geometry.CropRequestWithinImage` | front-end/src/App.tsx:570-588 | a box within the layout size gives a crop whose corner is not negative and whose far edges pass the natural size by at most one pixel |
| `Geometry.CropRequestWithinRect` | front-end/src/App.tsx:570-588 | a box within the bounding rectangle, which is what the clamp guarantees, gives a crop whose corner is not negative and whose far edges pass the rectangle's size, scaled by natural / layout size, by at most one pixel |
| `Geometry.CropRequestOvershoot` | front-end/src/App.tsx:574-588 | a 6-pixel image shown 4 pixels wide, dragged from 1 to the edge, asks for columns 2 through 6, one past the image |
| `Geometry.CropRequestExample` | front-end/src/App.tsx:570-588 | 4000×3000 shown at 800×600, box (100,100)–(300,250): request (500, 500, 1000, 750) |
| `Geometry.SelectionStyle` | front-end/src/App.tsx:618-639 | no style without a box and both elements; otherwise a box of non-negative size spanning exactly the selection's corners shifted by the image's offset in the container |
| `Geometry.SelectionStyleUnderMouse` | front-end/src/App.tsx:485-504 | the on-screen box of a drag between two mouse positions inside the image lies exactly under them, measured from the container |
| `Geometry.Drag` | front-end/src/App.tsx:528-539 | a move never changes the fixed corner or the flags; while drawing it moves the other corner to the mouse; otherwise it does nothing; it keeps the crop invariant |
| `Geometry.Release` | front-end/src/App.tsx:544-558 | the release does nothing unless drawing; it ends the drag; the box is kept and confirmation offered exactly when both sides exceed 10 pixels, and the box is dropped otherwise; it keeps the crop invariant |
| `Geometry.DragAllKeepsStart` | front-end/src/App.tsx:534-538 | after any run of moves during a drag, the fixed corner is unchanged and the moving corner is at the last move |
| `Geometry.Gesture` | front-end/src/App.tsx:509-558 | a whole down–moves–up gesture ends with confirmation offered if and only if the last position is more than 10 pixels from the start on both axes; with confirmation the box spans start to last position, and without it no box remains |
| `Geometry.Click` | front-end/src/App.tsx:411-422 | a click records its point; it sets the end exactly when a start but no end exists, keeping the start; any other click restarts with the point as start and no end; an end never exists without a start |
| `Geometry.TwoClicksDrawArrow` | front-end/src/App.tsx:411-422 | from an empty or a complete arrow, two clicks give exactly the arrow between them |
| `Geometry.ClickSequence` | front-end/src/App.tsx:411-422 | clicks A, B, C give (A, none), (A, B), (C, none) |
| `Session.Toggle` | front-end/src/App.tsx:120-128 | the toggled path changes membership and every other path keeps its membership |
| `Session.FilterOutIndexRemoves` | front-end/src/App.tsx:254-255 | `filter((_, i) => i !== index)` removes exactly the element at `index`, or nothing when the index is outside the list |
| `Session.ArrowFollowUpMatchesFolder` | front-end/src/App.tsx:460-470 | for every path the back end accepts, the `originals/` prefix test chooses a list refresh exactly for the `originals` folder and a cache-key bump exactly for `datasets` |
| `Session.App.constructor` | front-end/src/App.tsx:40-86 | the initial state is what `useState` is given: nothing selected, cache key 0, Generate tab, crop mode, no box, no arrow |
| `Session.App.ReceiveImageList` | front-end/src/App.tsx:101 | a received listing replaces the image lists and nothing else |
| `Session.App.SetActiveTab` | front-end/src/App.tsx:852-864 | changes the active tab and nothing else |
| `Session.App.SetEditMode` | front-end/src/App.tsx:971-977 | changes the edit mode only; the box and the arrow are untouched |
| `Session.App.SelectImage` | front-end/src/App.tsx:117-138 | in select mode only the path's membership in the delete set flips; otherwise the image is displayed and the box, the confirmation and both arrow points are cleared |
| `Session.App.ToggleSelectMode` | front-end/src/App.tsx:153-156 | flips select mode and empties the delete set |
| `Session.App.SelectAllInFolder` | front-end/src/App.tsx:199-206 | the delete set gains exactly the paths of the chosen collection |
| `Session.App.AddReferenceFiles` | front-end/src/App.tsx:219-223 | the files and their preview URLs are appended at the same indices |
| `Session.App.RemoveReferenceFile` | front-end/src/App.tsx:250-256 | the file and the URL at the index are removed together, nothing is removed for an index outside the list, and the URL handed back for revocation is the removed non-empty one |
| `Session.App.ArrowClick` | front-end/src/App.tsx:391-423 | a no-op unless on the Edit tab with an image, its element and arrow mode; otherwise the clicked point, in natural pixels, is applied by `Click` |
| `Session.App.ClearArrow` | front-end/src/App.tsx:428-431 | removes both points and nothing else |
| `Session.App.SaveArrowImage` | front-end/src/App.tsx:436-480 | sends exactly when an image and both points exist; on success the arrow is cleared and an `originals/` path asks for a refresh with the cache key kept, while any other path bumps the cache key by 1 without a refresh; on failure nothing changes |
| `Session.App.MouseDown` | front-end/src/App.tsx:509-523 | on the Edit tab, with an image, in crop mode and with both elements, a new box starts at the clamped mouse; otherwise nothing changes |
| `Session.App.MouseMove` | front-end/src/App.tsx:528-539 | while drawing on the Edit tab with both elements, the move is applied by `Drag`; otherwise nothing changes |
| `Session.App.MouseUp` | front-end/src/App.tsx:544-558 | the release, also fired when the mouse leaves the image area (line 755), is applied by `Release` and changes nothing else |
| `Session.App.ConfirmCut` | front-end/src/App.tsx:563-605 | sends the scaled, rounded request exactly when a box, an image and its element exist; its corner is never negative; on success asks for a refresh and clears the box and the confirmation; on failure nothing changes |
| `Session.App.CancelCut` | front-end/src/App.tsx:610-613 | clears the box and the confirmation and nothing else |
| `Session.ArrowScenario` | front-end/src/App.tsx:391-480 | a session that opens the Edit tab, selects an image, switches to arrow mode, clicks twice and saves successfully sends the two clicked points; it refreshes the list exactly for an `originals/` path and otherwise leaves the cache key at 1 |
| `Session.CropScenario` | front-end/src/App.tsx:509-605 | a letterboxed 4000×3000 image shown at 800×600, dragged from display (100,100) to (300,250) and confirmed, asks for (500, 500, 1000, 750), and the box is cleared afterwards |

## Left out

- Network calls, `alert` and `confirm` dialogs: each request is returned and its outcome is an argument. The catch branches and the non-2xx branches behave the same and are both `ok = false`.
- `handleGenerate`, `handleGenerateTag`, `handleSaveManualTag`, `handleDeleteSelected`, the hover preview, and the drag-and-drop and file-input plumbing (`handleDragOver`, `handleDrop` with its `image/` type filter, `handleFileInput`): these forms and listing maintenance lie outside the annotation core. `AddReferenceFiles` receives the files those handlers pass on.
- The form reset of `handleGenerate` that revokes every preview URL (`App.tsx:289-291`) is part of `handleGenerate`, which is not modelled.
- `URL.createObjectURL` and `URL.revokeObjectURL` are browser resource calls. The created URLs are an argument of `AddReferenceFiles`, one per file. `RemoveReferenceFile` returns the URL it would revoke.
- In-flight flags `isCutting`, `isSavingArrow`, `isDeleting`, `isGenerating` and `isGeneratingTag`: each handler runs as one step, so these flags are false before and after every step. Overlapping promises are not modelled.
- The contents of `fetchImages`: a handler reports a refresh with its `refresh` result, and `ReceiveImageList` applies a listing.
- JSX rendering, apart from `getSelectionStyle` and the arrow overlay's inverse scaling (used only in `OverlayWithinHalfPixel`).
- OverlayWithinHalfPixel: the SVG overlay is sized by the image's `offsetWidth`/`offsetHeight` (`App.tsx:780-783`), and the lemma scales back by the bounding rectangle's size. So it assumes the two are equal, as they are for an untransformed image whose layout width is an integer. The browser's layout is not modelled.
- IEEE floating point: display coordinates are exact reals, and `Math.round` is `Floor(x + 0.5)`, which differs from JavaScript only by producing 0 where JavaScript produces -0.
- An image element of zero width or height, where the JavaScript divisions give `NaN` or `Infinity`: the element type requires positive sizes, so such an element can only be passed as `None`.
- `generate_uuid`: it draws from a random source.
- pathlib's special case of exactly two leading slashes (`//x` keeps a `//` root): it is read as an ordinary root. `..` is kept as a component, which matches pathlib.
- `back-end/api.py`, `back-end/utils/image_util.py`, `back-end/clients/*.py`, `back-end/utils/messages.py` and `main.py`: filesystem, image-library, network and process code outside the core. The one use of `api.py` is `TxtPathOfParsed`, which composes `parse_path` and `get_txt_path` as lines 109-110 do.
