/** The state of the `App` component of front-end/src/App.tsx and the event
    handlers that change it: picking images, the delete selection, the
    reference images, the crop drag and the arrow clicks. Network requests are
    returned to the caller and their outcome comes back as an `ok` argument. */
module Session {
  import opened Wrappers
  import opened Geometry
  import SystemUtil

  /** An entry of the image listing. */
  datatype ImageFile = ImageFile(name: string, path: string, hasTag: bool)

  /** The listing: both collections. */
  datatype ImageList = ImageList(originals: seq<ImageFile>, datasets: seq<ImageFile>)

  /** The two collections a "select all" button can name. */
  datatype Collection = OriginalsCollection | DatasetsCollection

  /** The right-hand panel's tabs. */
  datatype Tab = Generate | Cut | Other

  /** Which annotation receives mouse input on the Edit tab. */
  datatype EditMode = CropMode | ArrowMode

  /** A reference image the user dropped or picked, as its file name. */
  datatype ReferenceFile = ReferenceFile(name: string)

  /** Everything the handlers below read or write. */
  datatype AppState = AppState(
    images: ImageList,
    selectedImage: Option<ImageFile>,
    imageCacheKey: nat,
    isSelectMode: bool,
    selectedForDelete: set<string>,
    activeTab: Tab,
    editMode: EditMode,
    referenceFiles: seq<ReferenceFile>,
    previewUrls: seq<string>,
    crop: CropState,
    arrow: ArrowState)

  /** The paths of some listing entries. */
  function PathsOf(files: seq<ImageFile>): set<string> {
    set i | 0 <= i < |files| :: files[i].path
  }

  function FolderImages(images: ImageList, folder: Collection): seq<ImageFile> {
    if folder == OriginalsCollection then images.originals else images.datasets
  }

  /** Adds an element when it is absent and removes it when it is present. */
  function Toggle(s: set<string>, x: string): (r: set<string>)
    ensures x in r <==> x !in s
    ensures forall y :: y != x ==> (y in r <==> y in s)
  {
    if x in s then s - {x} else s + {x}
  }

  /** `s.filter((_, i) => i !== index)`, where `first` is the index of `s[0]`. */
  function FilterOutIndex<T>(s: seq<T>, index: int, first: int): seq<T>
    decreases |s|
  {
    if s == [] then [] else (if first == index then [] else [s[0]]) + FilterOutIndex(s[1..], index, first + 1)
  }

  /** Filtering out an index removes that one element, or nothing when the index is outside the list. */
  lemma {:induction false} FilterOutIndexRemoves<T>(s: seq<T>, index: int, first: int)
    decreases |s|
    ensures FilterOutIndex(s, index, first) ==
      if first <= index < first + |s| then s[..index - first] + s[index - first + 1..] else s
  {
    if s != [] {
      FilterOutIndexRemoves(s[1..], index, first + 1);
      if first == index {
        assert s[..0] + s[1..] == s[1..];
      } else if first < index < first + |s| {
        assert [s[0]] + (s[1..][..index - first - 1] + s[1..][index - first..])
            == s[..index - first] + s[index - first + 1..];
      } else {
        assert [s[0]] + s[1..] == s;
      }
    }
  }

  /** What follows a saved arrow: a new file appears in the listing, or the
      displayed file was overwritten and must be fetched again. */
  datatype ArrowFollowUp = RefreshList | BumpCacheKey

  /** Saving an arrow on an original adds a file to the datasets; on any
      other path it overwrites the file in place. */
  function ArrowFollowUpFor(imagePath: string): ArrowFollowUp {
    if "originals/" <= imagePath then RefreshList else BumpCacheKey
  }

  /** For every path the back end accepts, the front end's prefix test picks
      the collection the back end parsed out of it. */
  lemma ArrowFollowUpMatchesFolder(imagePath: string)
    requires SystemUtil.ParsePath(imagePath).Success?
    ensures ArrowFollowUpFor(imagePath) == RefreshList <==> SystemUtil.ParsePath(imagePath).value.0 == SystemUtil.Originals
    ensures ArrowFollowUpFor(imagePath) == BumpCacheKey <==> SystemUtil.ParsePath(imagePath).value.0 == SystemUtil.Datasets
  {
    var (folder, filename) := SystemUtil.ParsePath(imagePath).value;
    assert imagePath == folder + "/" + filename;
    if folder == SystemUtil.Originals {
      assert imagePath[..10] == "originals/";
    } else {
      assert imagePath[0] == 'd';
    }
  }

  /** The state the `App` component keeps with `useState`. */
  class App {
    var images: ImageList
    var selectedImage: Option<ImageFile>
    var imageCacheKey: nat
    var isSelectMode: bool
    var selectedForDelete: set<string>
    var activeTab: Tab
    var editMode: EditMode
    var referenceFiles: seq<ReferenceFile>
    var previewUrls: seq<string>
    var isDrawing: bool
    var selection: Option<SelectionBox>
    var showConfirm: bool
    var arrowStart: Option<Point>
    var arrowEnd: Option<Point>

    function Crop(): CropState
      reads this
    {
      CropState(isDrawing, selection, showConfirm)
    }

    function Arrow(): ArrowState
      reads this
    {
      ArrowState(arrowStart, arrowEnd)
    }

    function State(): AppState
      reads this
    {
      AppState(images, selectedImage, imageCacheKey, isSelectMode, selectedForDelete, activeTab, editMode,
               referenceFiles, previewUrls, Crop(), Arrow())
    }

    /** Every reference file has its preview URL at the same index; the box
        never has a negative coordinate, since every corner comes from the
        clamp of `getRelativeCoords`; a confirmation is offered only for a
        large enough box; an arrow end only exists with a start. */
    ghost predicate Valid()
      reads this
    {
      && |referenceFiles| == |previewUrls|
      && (selection.Some? ==>
            && 0.0 <= selection.value.startX && 0.0 <= selection.value.startY
            && 0.0 <= selection.value.endX && 0.0 <= selection.value.endY)
      && CropInvariant(Crop())
      && ArrowInvariant(Arrow())
    }

    /** The initial values given to `useState`. */
    constructor ()
      ensures Valid()
      ensures State() == AppState(ImageList([], []), None, 0, false, {}, Generate, CropMode, [], [],
                                  CropState(false, None, false), NoArrow)
    {
      images := ImageList([], []);
      selectedImage := None;
      imageCacheKey := 0;
      isSelectMode := false;
      selectedForDelete := {};
      activeTab := Generate;
      editMode := CropMode;
      referenceFiles := [];
      previewUrls := [];
      isDrawing := false;
      selection := None;
      showConfirm := false;
      arrowStart := None;
      arrowEnd := None;
    }

    /** `setImages(data)`: a listing arrived from the server. */
    method ReceiveImageList(list: ImageList)
      requires Valid()
      modifies this
      ensures Valid()
      ensures State() == old(State()).(images := list)
    {
      images := list;
    }

    /** `setActiveTab`. */
    method SetActiveTab(tab: Tab)
      requires Valid()
      modifies this
      ensures Valid()
      ensures State() == old(State()).(activeTab := tab)
    {
      activeTab := tab;
    }

    /** `setEditMode`: redirects mouse input and leaves both annotations as they are. */
    method SetEditMode(mode: EditMode)
      requires Valid()
      modifies this
      ensures Valid()
      ensures State() == old(State()).(editMode := mode)
      ensures Crop() == old(Crop()) && Arrow() == old(Arrow())
    {
      editMode := mode;
    }

    /** `handleImageSelect`: in select mode the image's path is toggled in the
        delete set; otherwise the image is displayed and both annotations are
        cleared. */
    method SelectImage(image: ImageFile)
      requires Valid()
      modifies this
      ensures Valid()
      ensures old(isSelectMode) ==>
        State() == old(State()).(selectedForDelete := Toggle(old(selectedForDelete), image.path))
      ensures !old(isSelectMode) ==>
        State() == old(State()).(selectedImage := Some(image),
                                 crop := old(Crop()).(selection := None, showConfirm := false),
                                 arrow := NoArrow)
    {
      if isSelectMode {
        var newSet := selectedForDelete;
        if image.path in newSet {
          newSet := newSet - {image.path};
        } else {
          newSet := newSet + {image.path};
        }
        selectedForDelete := newSet;
      } else {
        selectedImage := Some(image);
        selection := None;
        showConfirm := false;
        arrowStart := None;
        arrowEnd := None;
      }
    }

    /** `toggleSelectMode`: flips select mode and empties the delete set. */
    method ToggleSelectMode()
      requires Valid()
      modifies this
      ensures Valid()
      ensures State() == old(State()).(isSelectMode := !old(isSelectMode), selectedForDelete := {})
    {
      isSelectMode := !isSelectMode;
      selectedForDelete := {};
    }

    /** `selectAllInFolder`: adds the path of every image of the collection to the delete set. */
    method SelectAllInFolder(folder: Collection)
      requires Valid()
      modifies this
      ensures Valid()
      ensures State() == old(State()).(selectedForDelete :=
                                         old(selectedForDelete) + PathsOf(FolderImages(old(images), folder)))
    {
      var folderImages := if folder == OriginalsCollection then images.originals else images.datasets;
      var newSet := selectedForDelete;
      var i := 0;
      while i < |folderImages|
        invariant 0 <= i <= |folderImages|
        invariant newSet == old(selectedForDelete) + PathsOf(folderImages[..i])
        invariant State() == old(State())
      {
        assert PathsOf(folderImages[..i + 1]) == PathsOf(folderImages[..i]) + {folderImages[i].path} by {
          assert forall j :: 0 <= j < i ==> folderImages[..i + 1][j] == folderImages[..i][j];
        }
        newSet := newSet + {folderImages[i].path};
        i := i + 1;
      }
      assert folderImages[..i] == folderImages;
      selectedForDelete := newSet;
    }

    /** `addReferenceFiles`: appends the files and, at the same indices, the
        preview URLs the browser created for them. */
    method AddReferenceFiles(files: seq<ReferenceFile>, newUrls: seq<string>)
      requires Valid()
      requires |newUrls| == |files|
      modifies this
      ensures Valid()
      ensures State() == old(State()).(referenceFiles := old(referenceFiles) + files,
                                       previewUrls := old(previewUrls) + newUrls)
    {
      referenceFiles := referenceFiles + files;
      previewUrls := previewUrls + newUrls;
    }

    /** `removeReferenceFile`: drops the file and its preview URL at `index`,
        and gives back the URL to revoke when there is one. */
    method RemoveReferenceFile(index: int) returns (revoked: Option<string>)
      requires Valid()
      modifies this
      ensures Valid()
      ensures revoked == if 0 <= index < |old(previewUrls)| && old(previewUrls)[index] != ""
                         then Some(old(previewUrls)[index]) else None
      ensures 0 <= index < |old(referenceFiles)| ==>
        State() == old(State()).(
          referenceFiles := old(referenceFiles)[..index] + old(referenceFiles)[index + 1..],
          previewUrls := old(previewUrls)[..index] + old(previewUrls)[index + 1..])
      ensures !(0 <= index < |old(referenceFiles)|) ==> State() == old(State())
    {
      revoked := None;
      if 0 <= index < |previewUrls| && previewUrls[index] != "" {
        revoked := Some(previewUrls[index]);
      }
      FilterOutIndexRemoves(referenceFiles, index, 0);
      FilterOutIndexRemoves(previewUrls, index, 0);
      referenceFiles := FilterOutIndex(referenceFiles, index, 0);
      previewUrls := FilterOutIndex(previewUrls, index, 0);
    }

    // -------------------------------------------------------------------------
    // Arrow

    /** `handleArrowClick`: on the Edit tab, in arrow mode, with an image shown
        and measurable, the click is mapped to natural pixels and recorded. */
    method ArrowClick(clientX: real, clientY: real, image: Option<LaidOutImage>)
      requires Valid()
      modifies this
      ensures Valid()
      ensures State() ==
        if old(activeTab) == Cut && old(selectedImage).Some? && image.Some? && old(editMode) == ArrowMode
        then old(State()).(arrow := Click(old(Arrow()), ArrowPoint(image.value, clientX, clientY)))
        else old(State())
    {
      if activeTab != Cut || selectedImage.None? || image.None? || editMode != ArrowMode {
        return;
      }
      var p := ArrowPoint(image.value, clientX, clientY);
      if arrowStart.None? {
        arrowStart := Some(p);
        arrowEnd := None;
      } else if arrowEnd.None? {
        arrowEnd := Some(p);
      } else {
        arrowStart := Some(p);
        arrowEnd := None;
      }
    }

    /** `clearArrow`. */
    method ClearArrow()
      requires Valid()
      modifies this
      ensures Valid()
      ensures State() == old(State()).(arrow := NoArrow)
    {
      arrowStart := None;
      arrowEnd := None;
    }

    /** `handleSaveArrowImage`: with an image and both points, the request is
        sent; on success the arrow is cleared and then either the listing is
        refreshed (an original) or the cache key is bumped (anything else); on
        failure nothing changes. */
    method SaveArrowImage(ok: bool) returns (request: Option<ArrowRequest>, refresh: bool)
      requires Valid()
      modifies this
      ensures Valid()
      ensures request.Some? <==> old(selectedImage).Some? && ArrowComplete(old(Arrow()))
      ensures request.Some? ==>
                request.value == ArrowRequest(old(selectedImage).value.path,
                                              old(arrowStart).value.x, old(arrowStart).value.y,
                                              old(arrowEnd).value.x, old(arrowEnd).value.y)
      ensures refresh <==> request.Some? && ok && ArrowFollowUpFor(old(selectedImage).value.path) == RefreshList
      ensures State() ==
        if request.None? || !ok then old(State())
        else if refresh then old(State()).(arrow := NoArrow)
        else old(State()).(arrow := NoArrow, imageCacheKey := old(imageCacheKey) + 1)
    {
      request, refresh := None, false;
      if selectedImage.None? || arrowStart.None? || arrowEnd.None? {
        return;
      }
      var path := selectedImage.value.path;
      request := Some(ArrowRequest(path, arrowStart.value.x, arrowStart.value.y, arrowEnd.value.x, arrowEnd.value.y));
      if ok {
        ClearArrow();
        if "originals/" <= path {
          refresh := true;
        } else {
          imageCacheKey := imageCacheKey + 1;
        }
      }
    }

    // -------------------------------------------------------------------------
    // Crop

    /** `handleMouseDown`: on the Edit tab, in crop mode, with an image shown,
        a new box starts at the clamped mouse position. */
    method MouseDown(clientX: real, clientY: real, container: Option<Rect>, image: Option<LaidOutImage>)
      requires Valid()
      modifies this
      ensures Valid()
      ensures var coords := RelativeCoords(container, image, clientX, clientY);
        State() ==
          if old(activeTab) == Cut && old(selectedImage).Some? && old(editMode) == CropMode && coords.Some?
          then old(State()).(crop := Press(coords.value.x, coords.value.y))
          else old(State())
    {
      if activeTab != Cut || selectedImage.None? || editMode != CropMode {
        return;
      }
      var coords := RelativeCoords(container, image, clientX, clientY);
      if coords.None? {
        return;
      }
      isDrawing := true;
      showConfirm := false;
      selection := Some(SelectionBox(coords.value.x, coords.value.y, coords.value.x, coords.value.y));
    }

    /** `handleMouseMove`: while drawing on the Edit tab, the moving corner
        follows the clamped mouse. */
    method MouseMove(clientX: real, clientY: real, container: Option<Rect>, image: Option<LaidOutImage>)
      requires Valid()
      modifies this
      ensures Valid()
      ensures var coords := RelativeCoords(container, image, clientX, clientY);
        State() ==
          if old(isDrawing) && old(activeTab) == Cut && coords.Some?
          then old(State()).(crop := Drag(old(Crop()), coords.value.x, coords.value.y))
          else old(State())
    {
      if !isDrawing || activeTab != Cut {
        return;
      }
      var coords := RelativeCoords(container, image, clientX, clientY);
      if coords.None? || selection.None? {
        return;
      }
      selection := Some(selection.value.(endX := coords.value.x, endY := coords.value.y));
    }

    /** `handleMouseUp`, also run when the mouse leaves the image area. */
    method MouseUp()
      requires Valid()
      modifies this
      ensures Valid()
      ensures State() == old(State()).(crop := Release(old(Crop())))
    {
      if !isDrawing {
        return;
      }
      isDrawing := false;
      if selection.Some? {
        var width := Abs(selection.value.endX - selection.value.startX);
        var height := Abs(selection.value.endY - selection.value.startY);
        if width > MinCropSize && height > MinCropSize {
          showConfirm := true;
        } else {
          selection := None;
        }
      }
    }

    /** `handleConfirmCut`: with a box, an image and its element, the crop is
        requested in natural pixels; on success the listing is refreshed and the
        box and confirmation are cleared; on failure nothing changes. */
    method ConfirmCut(image: Option<LaidOutImage>, ok: bool) returns (request: Option<CropRequest>, refresh: bool)
      requires Valid()
      modifies this
      ensures Valid()
      ensures request.Some? <==> old(selection).Some? && old(selectedImage).Some? && image.Some?
      ensures request.Some? ==>
        request.value == CropRequestOf(old(selectedImage).value.path, old(selection).value, image.value)
      ensures request.Some? ==> request.value.x >= 0 && request.value.y >= 0
      ensures refresh <==> request.Some? && ok
      ensures State() ==
        if refresh then old(State()).(crop := old(Crop()).(selection := None, showConfirm := false))
        else old(State())
    {
      request, refresh := None, false;
      if selection.None? || selectedImage.None? || image.None? {
        return;
      }
      request := Some(CropRequestOf(selectedImage.value.path, selection.value, image.value));
      if ok {
        refresh := true;
        selection := None;
        showConfirm := false;
      }
    }

    /** `handleCancelCut`: the box and the confirmation go, without a request. */
    method CancelCut()
      requires Valid()
      modifies this
      ensures Valid()
      ensures State() == old(State()).(crop := old(Crop()).(selection := None, showConfirm := false))
    {
      selection := None;
      showConfirm := false;
    }
  }

  /** An arrow session driven event by event: on an original it leaves the
      cache key alone and asks for a new listing, while on a dataset image it
      bumps the cache key. */
  method ArrowScenario(image: LaidOutImage, file: ImageFile, x0: real, y0: real, x1: real, y1: real)
    returns (request: Option<ArrowRequest>, refresh: bool, cacheKey: nat)
    ensures request == Some(ArrowRequest(file.path, ArrowPoint(image, x0, y0).x, ArrowPoint(image, x0, y0).y,
                                         ArrowPoint(image, x1, y1).x, ArrowPoint(image, x1, y1).y))
    ensures refresh <==> "originals/" <= file.path
    ensures cacheKey == if refresh then 0 else 1
  {
    var app := new App();
    app.SetActiveTab(Cut);
    app.SelectImage(file);
    app.SetEditMode(ArrowMode);
    app.ArrowClick(x0, y0, Some(image));
    app.ArrowClick(x1, y1, Some(image));
    request, refresh := app.SaveArrowImage(true);
    cacheKey := app.imageCacheKey;
    assert app.Arrow() == NoArrow;
  }

  /** A crop session driven event by event: a 4000x3000 image
      shown at 800x600 with its top-left corner at (100, 50) in the viewport,
      dragged from display (100, 100) to (300, 250) and confirmed, asks for the
      crop at (500, 500) of size 1000x750 and then clears the box. */
  method CropScenario(file: ImageFile) returns (request: Option<CropRequest>, boxAfter: Option<SelectionBox>)
    ensures request == Some(CropRequest(file.path, 500, 500, 1000, 750))
    ensures boxAfter.None?
  {
    var img: LaidOutImage := ImageElement(Rect(100.0, 50.0, 800.0, 600.0), 800, 600, 4000, 3000);
    var container := Rect(0.0, 0.0, 1000.0, 700.0);
    var app := new App();
    app.SetActiveTab(Cut);
    app.SelectImage(file);
    app.MouseDown(200.0, 150.0, Some(container), Some(img));
    app.MouseMove(400.0, 300.0, Some(container), Some(img));
    app.MouseUp();
    assert app.selection == Some(SelectionBox(100.0, 100.0, 300.0, 250.0));
    assert app.showConfirm;
    var refresh;
    request, refresh := app.ConfirmCut(Some(img), true);
    CropRequestExample(file.path);
    boxAfter := app.selection;
  }
}
