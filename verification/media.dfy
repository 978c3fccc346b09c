/** Names of the processed images of a recipe (api/src/lib/media.ts). The media
    processor writes under these names and recipe deletion removes the same
    names, so they must be a function of the recipe id alone and must never
    collide across recipes or between the two kinds. */
module Media {
  import opened Common
  import opened Strings

  /** The two processed renditions. */
  datatype Kind = Thumb | Image {
    /** The file name of the rendition inside the recipe's folder. */
    function FileName(): string {
      if Thumb? then "thumb.webp" else "image.webp"
    }
  }

  datatype BlobNames = BlobNames(thumbName: string, imageName: string)

  const Folder: string := "recipes/"

  /** `recipes/<id>/<file>` */
  function ProcessedName(recipeId: string, kind: Kind): (name: string)
    ensures |name| == |Folder| + |recipeId| + 1 + 10
  {
    Folder + recipeId + "/" + kind.FileName()
  }

  /** getProcessedBlobNames */
  function ProcessedBlobNames(recipeId: string): (r: BlobNames)
    ensures r.thumbName == ProcessedName(recipeId, Thumb)
    ensures r.imageName == ProcessedName(recipeId, Image)
  {
    BlobNames(Folder + recipeId + "/thumb.webp", Folder + recipeId + "/image.webp")
  }

  /** Reads a processed name back into the recipe id and the rendition. */
  function ParseProcessedName(name: string): (r: Option<(string, Kind)>)
    ensures r.Some? ==> ProcessedName(r.value.0, r.value.1) == name
  {
    if |name| < |Folder| + 1 + 10 || name[..|Folder|] != Folder || name[|name| - 11] != '/' then None
    else
      var id := name[|Folder|..|name| - 11];
      var file := name[|name| - 10..];
      assert name == Folder + id + "/" + file;
      if file == "thumb.webp" then Some((id, Thumb))
      else if file == "image.webp" then Some((id, Image))
      else None
  }

  /** Every processed name reads back to the id and rendition it was built from. */
  lemma ParseProcessedNameRoundTrip(recipeId: string, kind: Kind)
    ensures ParseProcessedName(ProcessedName(recipeId, kind)) == Some((recipeId, kind))
  {
    var name := ProcessedName(recipeId, kind);
    assert name[..|Folder|] == Folder;
    assert name[|name| - 11] == '/';
    assert name[|Folder|..|name| - 11] == recipeId;
    assert name[|name| - 10..] == kind.FileName();
  }

  /** Distinct (id, rendition) pairs never share a name: two recipes never
      overwrite each other's images, and a thumbnail never overwrites a main
      image, whatever the ids. */
  lemma ProcessedNameInjective(a: string, ka: Kind, b: string, kb: Kind)
    requires ProcessedName(a, ka) == ProcessedName(b, kb)
    ensures a == b && ka == kb
  {
    ParseProcessedNameRoundTrip(a, ka);
    ParseProcessedNameRoundTrip(b, kb);
  }

  /** For every id the two names differ. */
  lemma ThumbNotImage(recipeId: string)
    ensures ProcessedBlobNames(recipeId).thumbName != ProcessedBlobNames(recipeId).imageName
  {
    if ProcessedName(recipeId, Thumb) == ProcessedName(recipeId, Image) {
      ProcessedNameInjective(recipeId, Thumb, recipeId, Image);
    }
  }
}
