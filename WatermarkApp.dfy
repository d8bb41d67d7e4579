/**
 * The image list of the watermark component: the `images` list and the
 * `selectedImageId` that the add, load, load-error, select and delete
 * handlers update, the choice of preview, and the download name.
 *
 * Each handler is specified by a function on a `Gallery` value; the class
 * `ImageGallery` holds the two pieces of component state as fields and its
 * methods update them as the handlers do.
 */
module WatermarkApp {
  import opened Wrappers
  import opened Text
  import ImageUtils

  /** An id handed out by `uuidv4()`; fresh ids are passed in. */
  type Id = string

  /** The parts of a browser `File` that the component reads. */
  datatype FileInfo = FileInfo(name: string, size: nat, mimeType: string)

  /** `ImageItem`: the decoded image element is an opaque handle, absent until the image has loaded. */
  datatype ImageItem = ImageItem(id: Id, file: FileInfo, src: string, element: Option<nat>)

  /** The component state `images` and `selectedImageId`. */
  datatype Gallery = Gallery(images: seq<ImageItem>, selected: Option<Id>)

  const AcceptedTypes: seq<string> := ["image/png", "image/jpeg", "image/gif"]

  predicate HasId(images: seq<ImageItem>, id: Id) {
    exists k :: 0 <= k < |images| && images[k].id == id
  }

  predicate UniqueIds(images: seq<ImageItem>) {
    forall p, q :: 0 <= p < q < |images| ==> images[p].id != images[q].id
  }

  /** Ids are unique and non-empty, and the selection is empty or names an image of the list. */
  predicate Valid(g: Gallery) {
    && UniqueIds(g.images)
    && (forall k :: 0 <= k < |g.images| ==> g.images[k].id != [])
    && (g.selected.Some? ==> HasId(g.images, g.selected.value))
  }

  /** A `uuidv4()` result: non-empty and not yet in use. */
  predicate IsFreshId(g: Gallery, id: Id) {
    id != [] && !HasId(g.images, id) && g.selected != Some(id)
  }

  /** JavaScript truthiness of `selectedImageId`: `null` and the empty string are false. */
  predicate Truthy(selected: Option<Id>) {
    selected.Some? && selected.value != []
  }

  /** `images.find(img => img.id === id)`: the first image with that id; `null` matches none. */
  function Find(images: seq<ImageItem>, id: Option<Id>): (r: Option<ImageItem>)
    ensures r.Some? ==> r.value in images && id == Some(r.value.id)
    ensures r.None? <==> id.None? || !HasId(images, id.value)
  {
    if images == [] || id.None? then None
    else if images[0].id == id.value then Some(images[0])
    else
      var r := Find(images[1..], id);
      assert HasId(images, id.value) ==> HasId(images[1..], id.value) by {
        if HasId(images, id.value) {
          var k :| 0 <= k < |images| && images[k].id == id.value;
          assert images[1..][k - 1].id == id.value;
        }
      }
      r
  }

  /** With unique ids, the image found is the one at the id's position. */
  lemma {:induction false} FindUnique(images: seq<ImageItem>, p: nat)
    requires UniqueIds(images) && p < |images|
    ensures Find(images, Some(images[p].id)) == Some(images[p])
  {
    if p > 0 {
      assert UniqueIds(images[1..]);
      assert images[1..][p - 1] == images[p];
      FindUnique(images[1..], p - 1);
    }
  }

  // ----- processSingleFile -----

  /** `images.some(img => img.file.name === file.name && img.file.size === file.size)` */
  predicate SameFileIn(images: seq<ImageItem>, f: FileInfo) {
    exists k :: 0 <= k < |images| && images[k].file.name == f.name && images[k].file.size == f.size
  }

  /** Which of the early returns of `processSingleFile` is taken, if any. */
  datatype FileCheck = NoFile | UnsupportedType | Duplicate | Accepted

  function CheckFile(images: seq<ImageItem>, file: Option<FileInfo>): (c: FileCheck)
    ensures c == Accepted <==>
      file.Some? && file.value.mimeType in AcceptedTypes && !SameFileIn(images, file.value)
    ensures c == UnsupportedType ==>
      file.Some? && file.value.mimeType !in {"image/png", "image/jpeg", "image/gif"}
  {
    if file.None? then NoFile
    else if file.value.mimeType !in AcceptedTypes then UnsupportedType
    else if SameFileIn(images, file.value) then Duplicate
    else Accepted
  }

  /**
   * `processSingleFile`: a supported, new file is appended as a not yet
   * loaded item and becomes the selection when nothing was selected.
   */
  function Add(g: Gallery, file: Option<FileInfo>, newId: Id, src: string): (r: Gallery)
    ensures CheckFile(g.images, file) != Accepted ==> r == g
    ensures CheckFile(g.images, file) == Accepted ==>
      && |r.images| == |g.images| + 1
      && r.images[..|g.images|] == g.images
      && r.images[|g.images|] == ImageItem(newId, file.value, src, None)
    ensures r.selected != g.selected ==> !Truthy(g.selected) && r.selected == Some(newId)
    ensures CheckFile(g.images, file) == Accepted && !Truthy(g.selected) ==> r.selected == Some(newId)
  {
    if CheckFile(g.images, file) != Accepted then g
    else
      var item := ImageItem(newId, file.value, src, None);
      Gallery(g.images + [item], if Truthy(g.selected) then g.selected else Some(newId))
  }

  lemma AddPreservesValid(g: Gallery, file: Option<FileInfo>, newId: Id, src: string)
    requires Valid(g) && IsFreshId(g, newId)
    ensures Valid(Add(g, file, newId, src))
  {
    var r := Add(g, file, newId, src);
    if CheckFile(g.images, file) == Accepted {
      assert r.images[|g.images|].id == newId;
      if r.selected.Some? && r.selected != g.selected {
        assert r.selected.value == newId;
      } else if r.selected.Some? {
        var k :| 0 <= k < |g.images| && g.images[k].id == g.selected.value;
        assert r.images[k].id == g.selected.value;
      }
    }
  }

  // ----- onload and onerror -----

  /** `prev.map(item => item.id === id ? { ...item, imageElement: element } : item)` */
  function SetElement(images: seq<ImageItem>, id: Id, element: nat): (r: seq<ImageItem>)
    ensures |r| == |images|
    ensures forall k :: 0 <= k < |r| ==> r[k].id == images[k].id && r[k].file == images[k].file && r[k].src == images[k].src
    ensures forall k :: 0 <= k < |r| ==> r[k].element == if images[k].id == id then Some(element) else images[k].element
  {
    seq(|images|, k requires 0 <= k < |images| =>
      if images[k].id == id then images[k].(element := Some(element)) else images[k])
  }

  /** `img.onload`: the element is attached to the item with that id, and nothing else changes. */
  function Loaded(g: Gallery, id: Id, element: nat): (r: Gallery)
    ensures r.selected == g.selected
    ensures |r.images| == |g.images|
    ensures forall k :: 0 <= k < |g.images| && g.images[k].id != id ==> r.images[k] == g.images[k]
    ensures forall k :: 0 <= k < |g.images| && g.images[k].id == id ==>
      r.images[k] == g.images[k].(element := Some(element))
  {
    Gallery(SetElement(g.images, id, element), g.selected)
  }

  lemma LoadedPreservesValid(g: Gallery, id: Id, element: nat)
    requires Valid(g)
    ensures Valid(Loaded(g, id, element))
  {
    var r := Loaded(g, id, element);
    if g.selected.Some? {
      var k :| 0 <= k < |g.images| && g.images[k].id == g.selected.value;
      assert r.images[k].id == g.selected.value;
    }
  }

  /** `prev.filter(item => item.id !== id)` */
  function RemoveId(images: seq<ImageItem>, id: Id): (r: seq<ImageItem>)
    ensures |r| <= |images|
    ensures forall k :: 0 <= k < |r| ==> r[k].id != id && r[k] in images
  {
    if images == [] then []
    else (if images[0].id == id then [] else [images[0]]) + RemoveId(images[1..], id)
  }

  /** Removing an id keeps exactly the other ids. */
  lemma {:induction false} RemoveIdHasId(images: seq<ImageItem>, id: Id, x: Id)
    ensures HasId(RemoveId(images, id), x) <==> HasId(images, x) && x != id
  {
    if images != [] {
      RemoveIdHasId(images[1..], id, x);
      var rest := RemoveId(images[1..], id);
      var head := if images[0].id == id then [] else [images[0]];
      assert RemoveId(images, id) == head + rest;
      if HasId(images, x) && x != id {
        var k :| 0 <= k < |images| && images[k].id == x;
        if k > 0 {
          assert images[1..][k - 1].id == x;
          var m :| 0 <= m < |rest| && rest[m].id == x;
          assert (head + rest)[|head| + m].id == x;
        } else {
          assert (head + rest)[0].id == x;
        }
      }
      if HasId(head + rest, x) {
        var m :| 0 <= m < |head + rest| && (head + rest)[m].id == x;
        if m >= |head| {
          assert rest[m - |head|].id == x;
          var k :| 0 <= k < |images[1..]| && images[1..][k].id == x;
          assert images[k + 1].id == x;
        } else {
          assert images[0].id == x;
        }
      }
    }
  }

  /** With unique ids, removing the id at position `p` is cutting that position out: the rest keep their order. */
  lemma {:induction false} RemoveIdAt(images: seq<ImageItem>, p: nat)
    requires UniqueIds(images) && p < |images|
    ensures RemoveId(images, images[p].id) == images[..p] + images[p + 1..]
  {
    var id := images[p].id;
    if p == 0 {
      RemoveIdAbsent(images[1..], id);
    } else {
      var tail := images[1..];
      assert UniqueIds(tail) by {
        forall a, b | 0 <= a < b < |tail| ensures tail[a].id != tail[b].id {
          assert tail[a] == images[a + 1] && tail[b] == images[b + 1];
        }
      }
      assert tail[p - 1] == images[p];
      RemoveIdAt(tail, p - 1);
      assert images[0].id != id by {
        assert images[0].id != images[p].id;
      }
      assert RemoveId(images, id) == [images[0]] + RemoveId(tail, id);
      assert tail[..p - 1] == images[1..p];
      assert tail[p..] == images[p + 1..];
      assert images[..p] == [images[0]] + images[1..p];
    }
  }

  /** Removing an id that is not there changes nothing. */
  lemma {:induction false} RemoveIdAbsent(images: seq<ImageItem>, id: Id)
    requires !HasId(images, id)
    ensures RemoveId(images, id) == images
  {
    if images != [] {
      assert images[0].id != id;
      assert forall k :: 0 <= k < |images[1..]| ==> images[1..][k] == images[k + 1];
      RemoveIdAbsent(images[1..], id);
      assert [images[0]] + images[1..] == images;
    }
  }

  /** The tail of a list with unique ids has unique ids, and none of them is the head's. */
  lemma TailUnique(images: seq<ImageItem>)
    requires UniqueIds(images) && images != []
    ensures UniqueIds(images[1..]) && !HasId(images[1..], images[0].id)
  {
    var tail := images[1..];
    forall p, q | 0 <= p < q < |tail| ensures tail[p].id != tail[q].id {
      assert tail[p] == images[p + 1] && tail[q] == images[q + 1];
    }
    forall m | 0 <= m < |tail| ensures tail[m].id != images[0].id {
      assert tail[m] == images[m + 1];
    }
  }

  /** Putting an item with a new id in front keeps ids unique. */
  lemma ConsUnique(x: ImageItem, xs: seq<ImageItem>)
    requires UniqueIds(xs) && !HasId(xs, x.id)
    ensures UniqueIds([x] + xs)
  {
    var r := [x] + xs;
    forall p, q | 0 <= p < q < |r| ensures r[p].id != r[q].id {
      assert r[q] == xs[q - 1];
      if p > 0 {
        assert r[p] == xs[p - 1];
      }
    }
  }

  lemma {:induction false} RemoveIdPreservesUnique(images: seq<ImageItem>, id: Id)
    requires UniqueIds(images)
    ensures UniqueIds(RemoveId(images, id))
  {
    if images != [] {
      var tail := images[1..];
      TailUnique(images);
      RemoveIdPreservesUnique(tail, id);
      var rest := RemoveId(tail, id);
      if images[0].id != id {
        RemoveIdHasId(tail, id, images[0].id);
        assert RemoveId(images, id) == [images[0]] + rest;
        ConsUnique(images[0], rest);
      } else {
        assert RemoveId(images, id) == rest;
      }
    }
  }


  /** `img.onerror` as intended: the item goes, and so does the selection when it was that item. */
  function LoadFailed(g: Gallery, id: Id): (r: Gallery)
    ensures r.images == RemoveId(g.images, id)
    ensures !HasId(r.images, id)
    ensures r.selected == if g.selected == Some(id) then None else g.selected
  {
    RemoveIdHasId(g.images, id, id);
    Gallery(RemoveId(g.images, id), if g.selected == Some(id) then None else g.selected)
  }

  lemma LoadFailedPreservesValid(g: Gallery, id: Id)
    requires Valid(g)
    ensures Valid(LoadFailed(g, id))
  {
    RemoveIdPreservesUnique(g.images, id);
    if g.selected.Some? && g.selected != Some(id) {
      RemoveIdHasId(g.images, id, g.selected.value);
    }
  }

  /** A file that fails to load leaves the list and the selection as they were before it was added. */
  lemma {:induction false} AddThenLoadFailedRestores(g: Gallery, f: FileInfo, newId: Id, src: string)
    requires Valid(g) && IsFreshId(g, newId) && CheckFile(g.images, Some(f)) == Accepted
    ensures LoadFailed(Add(g, Some(f), newId, src), newId) == g
  {
    var a := Add(g, Some(f), newId, src);
    RemoveIdAt(a.images, |g.images|);
    assert a.images[..|g.images|] + a.images[|g.images| + 1..] == g.images;
    if g.selected.Some? {
      assert g.selected.value != [];
    }
  }

  /**
   * `img.onerror` as written: `selectedImageId` there is the value captured
   * when `processSingleFile` ran, before the new item was selected, so the
   * comparison with the new id never holds.
   */
  function LoadFailedAsWritten(g: Gallery, id: Id, captured: Option<Id>): (r: Gallery)
    ensures r.images == LoadFailed(g, id).images
    ensures captured != Some(id) ==> r.selected == g.selected
  {
    Gallery(RemoveId(g.images, id), if captured == Some(id) then None else g.selected)
  }

  /** As written, a failed load never clears the selection the add made: it is left naming a removed image. */
  lemma {:induction false} LoadFailedAsWrittenKeepsSelection(g: Gallery, f: FileInfo, newId: Id, src: string)
    requires Valid(g) && IsFreshId(g, newId) && CheckFile(g.images, Some(f)) == Accepted
    ensures var a := Add(g, Some(f), newId, src);
      LoadFailedAsWritten(a, newId, g.selected).selected == a.selected
  {
  }

  /**
   * The input that shows it: one supported file added to the empty gallery
   * fails to load. The list is empty again but the selection still names
   * the failed image; a second file is then not selected, and the preview
   * asks the user to pick an image.
   */
  lemma {:induction false} LoadFailedAsWrittenDangles(f: FileInfo, f2: FileInfo, id: Id, id2: Id)
    requires f.mimeType == "image/png" && f2.mimeType == "image/png"
    requires id != [] && id2 != [] && id2 != id
    ensures var g1 := Add(Gallery([], None), Some(f), id, "blob:1");
      var g2 := LoadFailedAsWritten(g1, id, None);
      var g3 := Add(g2, Some(f2), id2, "blob:2");
      && g2 == Gallery([], Some(id)) && !Valid(g2)
      && g3.selected == Some(id) && PreviewOf(g3) == SelectPrompt
    ensures var g1 := Add(Gallery([], None), Some(f), id, "blob:1");
      LoadFailed(g1, id) == Gallery([], None)
  {
    var g1 := Add(Gallery([], None), Some(f), id, "blob:1");
    assert g1.images == [ImageItem(id, f, "blob:1", None)];
    assert RemoveId(g1.images, id) == [];
    var g2 := LoadFailedAsWritten(g1, id, None);
    var g3 := Add(g2, Some(f2), id2, "blob:2");
    assert g3.images == [ImageItem(id2, f2, "blob:2", None)];
    assert Find(g3.images, Some(id)) == None;
  }

  // ----- handleSelectImage and handleDeleteImage -----

  /** `handleSelectImage`: only an id that is in the list becomes the selection. */
  function Select(g: Gallery, id: Id): (r: Gallery)
    ensures r.images == g.images
    ensures r.selected == (if HasId(g.images, id) then Some(id) else g.selected)
  {
    if HasId(g.images, id) then Gallery(g.images, Some(id)) else g
  }

  lemma SelectPreservesValid(g: Gallery, id: Id)
    requires Valid(g)
    ensures Valid(Select(g, id))
  {
  }

  /**
   * `handleDeleteImage`: the image goes and the others keep their order;
   * when it was selected, the selection moves to the first remaining image,
   * or to nothing when none remains.
   */
  function Delete(g: Gallery, id: Id): (r: Gallery)
    ensures r.images == RemoveId(g.images, id)
    ensures !HasId(r.images, id)
    ensures g.selected != Some(id) ==> r.selected == g.selected
    ensures g.selected == Some(id) && r.images != [] ==> r.selected == Some(r.images[0].id)
    ensures g.selected == Some(id) && r.images == [] ==> r.selected == None
  {
    var rest := RemoveId(g.images, id);
    RemoveIdHasId(g.images, id, id);
    Gallery(rest, if g.selected == Some(id) then (if |rest| > 0 then Some(rest[0].id) else None) else g.selected)
  }

  /** Deleting the image at position `p` removes exactly that position. */
  lemma {:induction false} DeleteRemovesPosition(g: Gallery, p: nat)
    requires Valid(g) && p < |g.images|
    ensures Delete(g, g.images[p].id).images == g.images[..p] + g.images[p + 1..]
  {
    RemoveIdAt(g.images, p);
  }

  lemma DeletePreservesValid(g: Gallery, id: Id)
    requires Valid(g)
    ensures Valid(Delete(g, id))
  {
    RemoveIdPreservesUnique(g.images, id);
    var r := Delete(g, id);
    if r.selected.Some? {
      if g.selected == Some(id) {
        assert r.images[0].id == r.selected.value;
      } else {
        RemoveIdHasId(g.images, id, g.selected.value);
      }
    }
  }

  /** The object URL `handleDeleteImage` revokes: the image's `src`, when it is a `blob:` URL. */
  function RevokedOnDelete(g: Gallery, id: Id): (r: Option<string>)
    ensures r.Some? ==> IsPrefix("blob:", r.value) && exists item :: item in g.images && item.id == id && item.src == r.value
    ensures !HasId(g.images, id) ==> r.None?
  {
    match Find(g.images, Some(id))
    case None => None
    case Some(item) => if IsPrefix("blob:", item.src) then Some(item.src) else None
  }

  /** With unique ids, the URL revoked is the deleted image's own `src`, exactly when it is a `blob:` URL. */
  lemma RevokedOnDeleteAt(g: Gallery, p: nat)
    requires UniqueIds(g.images) && p < |g.images|
    ensures RevokedOnDelete(g, g.images[p].id) == if IsPrefix("blob:", g.images[p].src) then Some(g.images[p].src) else None
  {
    FindUnique(g.images, p);
  }

  // ----- renderPreview, the drawing effect's guard and handleDownload -----

  datatype Preview = LoadingSpinner | NoImagesPrompt | SelectPrompt | CanvasView(item: ImageItem)

  /** `renderPreview`: the four views, tested in the component's order. */
  function PreviewOf(g: Gallery): (r: Preview)
    ensures r == NoImagesPrompt <==> g.images == []
    ensures r == LoadingSpinner ==> g.selected.Some? && HasId(g.images, g.selected.value)
    ensures r == SelectPrompt ==>
      g.images != [] && (g.selected.None? || g.selected.value == [] || !HasId(g.images, g.selected.value))
    ensures r.CanvasView? ==> r.item in g.images && g.selected == Some(r.item.id) && r.item.element.Some?
  {
    var selectedImage := Find(g.images, g.selected);
    if selectedImage.Some? && selectedImage.value.element.None? then LoadingSpinner
    else if |g.images| == 0 then NoImagesPrompt
    else if !Truthy(g.selected) || selectedImage.None? then SelectPrompt
    else CanvasView(selectedImage.value)
  }

  /** Which view shows, in terms of the state alone. */
  lemma PreviewCases(g: Gallery)
    requires Valid(g)
    ensures PreviewOf(g) == NoImagesPrompt <==> g.images == []
    ensures PreviewOf(g) == SelectPrompt <==> g.images != [] && g.selected.None?
    ensures PreviewOf(g) == LoadingSpinner <==>
      exists k :: 0 <= k < |g.images| && Some(g.images[k].id) == g.selected && g.images[k].element.None?
    ensures PreviewOf(g).CanvasView? <==>
      exists k :: 0 <= k < |g.images| && Some(g.images[k].id) == g.selected && g.images[k].element.Some?
    ensures PreviewOf(g).CanvasView? ==> Some(PreviewOf(g).item.id) == g.selected
  {
    if g.selected.Some? {
      var k :| 0 <= k < |g.images| && g.images[k].id == g.selected.value;
      FindUnique(g.images, k);
      assert g.selected.value != [];
      forall m | 0 <= m < |g.images| && Some(g.images[m].id) == g.selected ensures m == k {
      }
    }
  }

  /** The drawing effect's guard: it draws only when the selected image has loaded. */
  predicate EffectDraws(g: Gallery)
    ensures EffectDraws(g) ==>
      && g.selected.Some?
      && exists k :: 0 <= k < |g.images| && g.images[k].id == g.selected.value && g.images[k].element.Some?
  {
    var selectedImage := Find(g.images, g.selected);
    selectedImage.Some? && selectedImage.value.element.Some?
  }

  /** The effect draws exactly when the preview shows the canvas. */
  lemma EffectDrawsIffCanvasShown(g: Gallery)
    requires Valid(g)
    ensures EffectDraws(g) <==> PreviewOf(g).CanvasView?
  {
    if g.selected.Some? {
      assert g.selected.value != [] by {
        var k :| 0 <= k < |g.images| && g.images[k].id == g.selected.value;
      }
    }
  }

  /** `generateCustomFileName`: the same name `generateFileName` of the image utilities gives. */
  function GenerateCustomFileName(fileName: string): (r: string)
    ensures IsPrefix(ImageUtils.FilePrefix, r)
    ensures IsSuffix("." + LastSegment(fileName, '.'), r)
  {
    ImageUtils.GenerateFileName(fileName)
  }

  /** `handleDownload`: the name the canvas is saved under, or nothing when no image is selected. */
  function DownloadName(g: Gallery): (r: Option<string>)
    ensures r.Some? <==> g.selected.Some? && HasId(g.images, g.selected.value)
    ensures r.Some? ==> IsPrefix(ImageUtils.FilePrefix, r.value)
    ensures r.Some? ==>
      exists item :: item in g.images && g.selected == Some(item.id) && r.value == GenerateCustomFileName(item.file.name)
  {
    match Find(g.images, g.selected)
    case None => None
    case Some(item) => Some(GenerateCustomFileName(item.file.name))
  }

  /** With unique ids, the name is the one made from the selected image's own file name. */
  lemma DownloadNameOfSelected(g: Gallery, p: nat)
    requires UniqueIds(g.images) && p < |g.images| && g.selected == Some(g.images[p].id)
    ensures DownloadName(g) == Some(GenerateCustomFileName(g.images[p].file.name))
  {
    FindUnique(g.images, p);
  }

  // ----- the component state -----

  class ImageGallery {
    var images: seq<ImageItem>
    var selectedImageId: Option<Id>

    function State(): Gallery
      reads this
    {
      Gallery(images, selectedImageId)
    }

    constructor ()
      ensures State() == Gallery([], None) && Valid(State())
    {
      images := [];
      selectedImageId := None;
    }

    /** `processSingleFile`, with the fresh `uuidv4()` id and the object URL passed in. */
    method ProcessSingleFile(file: Option<FileInfo>, newId: Id, src: string) returns (check: FileCheck)
      requires Valid(State()) && IsFreshId(State(), newId)
      modifies this
      ensures check == CheckFile(old(images), file)
      ensures State() == Add(old(State()), file, newId, src)
      ensures Valid(State())
    {
      AddPreservesValid(State(), file, newId, src);
      if file.None? {
        return NoFile;
      }
      var f := file.value;
      if f.mimeType !in AcceptedTypes {
        return UnsupportedType;
      }
      if SameFileIn(images, f) {
        return Duplicate;
      }
      check := Accepted;
      images := images + [ImageItem(newId, f, src, None)];
      if !Truthy(selectedImageId) {
        selectedImageId := Some(newId);
      }
    }

    /** `img.onload` for the item `id`. */
    method OnImageLoad(id: Id, element: nat)
      requires Valid(State())
      modifies this
      ensures State() == Loaded(old(State()), id, element)
      ensures Valid(State())
    {
      LoadedPreservesValid(State(), id, element);
      images := SetElement(images, id, element);
    }

    /** `img.onerror` for the item `id`, comparing against the current selection. */
    method OnImageError(id: Id)
      requires Valid(State())
      modifies this
      ensures State() == LoadFailed(old(State()), id)
      ensures Valid(State())
    {
      LoadFailedPreservesValid(State(), id);
      images := RemoveId(images, id);
      if selectedImageId == Some(id) {
        selectedImageId := None;
      }
    }

    method HandleSelectImage(id: Id)
      requires Valid(State())
      modifies this
      ensures State() == Select(old(State()), id)
      ensures Valid(State())
    {
      if HasId(images, id) {
        selectedImageId := Some(id);
      }
    }

    /** `handleDeleteImage`; returns the object URL it revokes. */
    method HandleDeleteImage(id: Id) returns (revoked: Option<string>)
      requires Valid(State())
      modifies this
      ensures revoked == RevokedOnDelete(old(State()), id)
      ensures State() == Delete(old(State()), id)
      ensures Valid(State())
    {
      DeletePreservesValid(State(), id);
      var imageToDelete := Find(images, Some(id));
      revoked := None;
      if imageToDelete.Some? && IsPrefix("blob:", imageToDelete.value.src) {
        revoked := Some(imageToDelete.value.src);
      }
      var wasSelected := selectedImageId == Some(id);
      images := RemoveId(images, id);
      if wasSelected {
        selectedImageId := if |images| > 0 then Some(images[0].id) else None;
      }
    }
  }
}
