/** The one-shot image-list script: the image files of the directory, as a
    plain list of names. */
module UpdateImages {
  import opened ImageFiles
  import WatchImages

  /** The written object: `{ images: [...] }`. */
  datatype ImageList = ImageList(images: seq<string>)

  /** `updateImageList` in this script: the listing filtered to image files,
      in order, wrapped as the single field of the written object. */
  function UpdateImageList(files: seq<string>): (list: ImageList)
    requires NoSlashes(files)
    ensures forall f :: f in list.images <==> f in files && IsImageFile(f)
    ensures IsSubsequence(list.images, files)
  {
    ImageList(FilterImageFiles(files))
  }

  /** Both scripts pick the same files: the watcher's records name exactly
      this list, in the same order. */
  lemma ScriptsAgree(files: seq<string>)
    requires NoSlashes(files)
    ensures var records := WatchImages.UpdateImageList(files);
            var names := seq(|records|, i requires 0 <= i < |records| => records[i].filename);
            names == UpdateImageList(files).images
  {
  }

  /** Running the script over a directory that holds only its own output
      and other images leaves the image list as it was. */
  lemma ListIsStable(files: seq<string>)
    requires NoSlashes(files)
    ensures UpdateImageList(UpdateImageList(files).images) == UpdateImageList(files)
  {
    FilterIdempotent(files);
  }

  /** Upper-case extensions are kept; other extensions and the list file
      itself are dropped. */
  lemma ListingExample()
    ensures UpdateImageList(["CAT.PNG", "notes.txt", "image-list.json"]).images == ["CAT.PNG"]
  {
    var files := ["CAT.PNG", "notes.txt", "image-list.json"];
    UpperCaseImageFile();
    TextFileIsNotImage();
    assert files[1..] == ["notes.txt", "image-list.json"];
    assert files[1..][1..] == ["image-list.json"];
    assert files[1..][1..][1..] == [];
  }
}
