/**
 * The add-on's four operators acting on the state they touch: the scene's
 * favourites collection, the host's image table and the image editor's
 * active image.
 */
module Operators {
  import opened Wrappers
  import opened FaveList

  /** What an operator that can fail reports back to the host. */
  datatype Status = Finished | IndexOutOfRange(index: int, length: nat)

  class EditorContext {
    /** The scene's favourites collection, in insertion order. */
    var faveImageList: seq<FaveImage>
    /** Names of the images in the host's image table. */
    var images: set<string>
    /** Name of the image the image editor shows, if it shows one. */
    var activeImage: Option<string>

    /** The image editor shows an image of the host's image table, or none. */
    ghost predicate Valid()
      reads this
    {
      activeImage.Some? ==> activeImage.value in images
    }

    /**
     * A scene starts with an empty favourites collection; the editor it opens
     * in shows an image of the host's image table, or none.
     */
    constructor (images: set<string>, activeImage: Option<string>)
      requires activeImage.Some? ==> activeImage.value in images
      ensures faveImageList == []
      ensures this.images == images && this.activeImage == activeImage
      ensures Valid()
    {
      faveImageList := [];
      this.images := images;
      this.activeImage := activeImage;
    }

    /** The host offers "add" only while the editor shows an image. */
    predicate CanAddToFaves()
      reads this
    {
      activeImage.Some?
    }

    /** Appends an entry naming the image the editor shows. */
    method AddToFaves()
      requires CanAddToFaves()
      modifies this`faveImageList
      ensures faveImageList == old(faveImageList) + [FaveImage(activeImage.value)]
      ensures |faveImageList| == |old(faveImageList)| + 1
      ensures images == old(images) && activeImage == old(activeImage)
    {
      faveImageList := faveImageList + [FaveImage(activeImage.value)];
    }

    /**
     * Removes the entry at `index`; later entries shift down by one. The host
     * collection refuses an index outside the list and leaves it as it was.
     */
    method RemoveFromFaves(index: int) returns (status: Status)
      modifies this`faveImageList
      ensures 0 <= index < |old(faveImageList)| ==>
        status == Finished && faveImageList == Removed(old(faveImageList), index)
      ensures !(0 <= index < |old(faveImageList)|) ==>
        status == IndexOutOfRange(index, |old(faveImageList)|) && faveImageList == old(faveImageList)
      ensures images == old(images) && activeImage == old(activeImage)
    {
      if 0 <= index < |faveImageList| {
        faveImageList := faveImageList[..index] + faveImageList[index + 1..];
        status := Finished;
      } else {
        status := IndexOutOfRange(index, |faveImageList|);
      }
    }

    /**
     * Scans the list forward by index and removes each examined entry whose
     * image is missing; after a removal the index still advances, so the entry
     * that slid into the vacated slot is not examined.
     */
    method CleanFaves()
      modifies this`faveImageList
      ensures faveImageList == ScanClean(old(faveImageList), images)
      ensures images == old(images) && activeImage == old(activeImage)
    {
      ghost var orig := faveImageList;
      ghost var kept: seq<FaveImage> := [];
      ghost var j := 0;
      var i := 0;
      while i < |faveImageList|
        invariant ScanLoop(orig, images, faveImageList, kept, i, j)
        invariant images == old(images) && activeImage == old(activeImage)
        decreases |orig| - j
      {
        ghost var list := faveImageList;
        kept, j := ScanLoopStep(orig, images, list, kept, i, j);
        if !Available(faveImageList[i], images) {
          var _ := RemoveFromFaves(i);
        }
        i := i + 1;
      }
      ScanLoopDone(orig, images, faveImageList, kept, i, j);
    }

    /**
     * Clean as its description intends it: removes every entry whose image is
     * missing, by advancing the index only past an entry it keeps.
     */
    method CleanAllFaves()
      modifies this`faveImageList
      ensures faveImageList == KeepAvailable(old(faveImageList), images)
      ensures images == old(images) && activeImage == old(activeImage)
    {
      ghost var orig := faveImageList;
      ghost var kept: seq<FaveImage> := [];
      ghost var j := 0;
      var i := 0;
      assert orig[0..] == orig;
      while i < |faveImageList|
        invariant FilterLoop(orig, images, faveImageList, kept, i, j)
        invariant images == old(images) && activeImage == old(activeImage)
        decreases |orig| - j
      {
        if !Available(faveImageList[i], images) {
          FilterLoopRemove(orig, images, faveImageList, kept, i, j);
          var _ := RemoveFromFaves(i);
        } else {
          FilterLoopKeep(orig, images, faveImageList, kept, i, j);
          kept, i := kept + [faveImageList[i]], i + 1;
        }
        j := j + 1;
      }
      FilterLoopDone(orig, images, faveImageList, kept, i, j);
    }

    /** The host offers "set current" only while the favourites list is non-empty. */
    predicate CanSetCurrentImage()
      reads this
    {
      |faveImageList| > 0
    }

    /**
     * Makes the named image the editor's active one when the image table has
     * it; otherwise reports it missing and leaves the editor as it was.
     */
    method SetCurrentImage(imageName: string) returns (reported: bool)
      requires CanSetCurrentImage()
      modifies this`activeImage
      ensures imageName in images ==> activeImage == Some(imageName) && !reported
      ensures imageName !in images ==> activeImage == old(activeImage) && reported
      ensures faveImageList == old(faveImageList) && images == old(images)
      ensures old(Valid()) ==> Valid()
    {
      if imageName in images {
        activeImage := Some(imageName);
        reported := false;
      } else {
        reported := true;
      }
    }
  }

  /**
   * A session as a user might run it: two favourites are added, the first is
   * removed, the host then loses the remaining image (and the editor stops
   * showing it), and clean empties the list.
   */
  method Session()
  {
    var context := new EditorContext({"img1", "img2"}, Some("img1"));
    context.AddToFaves();
    var reported := context.SetCurrentImage("img2");
    assert !reported && context.activeImage == Some("img2");
    context.AddToFaves();
    assert context.faveImageList == [FaveImage("img1"), FaveImage("img2")];
    var status := context.RemoveFromFaves(0);
    assert status == Finished && context.faveImageList == [FaveImage("img2")];
    reported := context.SetCurrentImage("img3");
    assert reported && context.activeImage == Some("img2");
    context.images, context.activeImage := {"img1"}, None;
    assert !Available(FaveImage("img2"), context.images) by {
      assert "img2"[3] != "img1"[3];
    }
    context.CleanFaves();
    assert context.faveImageList == [];
    status := context.RemoveFromFaves(0);
    assert status == IndexOutOfRange(0, 0);
  }
}
