/**
 * backend/core/utils/image.py: size and type checks on uploaded files, the storage
 * path of a file, and the path `create_thumbnail` saves the thumbnail under. The size
 * limits come from Django settings, which are outside the model, so they are
 * parameters; image decoding and resizing are not modelled.
 */
module ImageUtils {
  import opened Wrappers
  import opened Strings
  import CoreUtils

  const ImageSizeMessage: string := "Размер файла не должен превышать 5MB"
  const DocumentSizeMessage: string := "Размер файла не должен превышать 10MB"
  const FileTypeMessage: string := "Неподдерживаемый тип файла"

  /** `validate_image_size`: rejects only what is strictly over the limit. */
  function ValidateImageSize(size: int, maxImageSize: int): (r: Outcome<string>)
    ensures r.Fail? <==> size > maxImageSize
    ensures r.Fail? ==> r.error == ImageSizeMessage
  {
    if size > maxImageSize then Fail(ImageSizeMessage) else Pass
  }

  /** `validate_document_size`: the same rule against the document limit. */
  function ValidateDocumentSize(size: int, maxDocumentSize: int): (r: Outcome<string>)
    ensures r.Fail? <==> size > maxDocumentSize
    ensures r.Fail? ==> r.error == DocumentSizeMessage
  {
    if size > maxDocumentSize then Fail(DocumentSizeMessage) else Pass
  }

  /** A file exactly at the limit passes; one byte more does not. */
  lemma SizeLimitInclusive(limit: int)
    ensures ValidateImageSize(limit, limit) == Pass
    ensures ValidateImageSize(limit + 1, limit) == Fail(ImageSizeMessage)
    ensures ValidateDocumentSize(limit, limit) == Pass
    ensures ValidateDocumentSize(limit + 1, limit) == Fail(DocumentSizeMessage)
  {
  }

  /** A smaller file passes wherever a larger one does. */
  lemma SmallerFilesPass(small: int, large: int, limit: int)
    requires small <= large
    ensures ValidateImageSize(large, limit).Pass? ==> ValidateImageSize(small, limit).Pass?
    ensures ValidateDocumentSize(large, limit).Pass? ==> ValidateDocumentSize(small, limit).Pass?
  {
  }

  /** `validate_file_type`: the content type must be one of the allowed ones, exactly. */
  function ValidateFileType(contentType: string, allowedTypes: seq<string>): (r: Outcome<string>)
    ensures r.Pass? <==> contentType in allowedTypes
    ensures r.Fail? ==> r.error == FileTypeMessage
  {
    if contentType !in allowedTypes then Fail(FileTypeMessage) else Pass
  }

  /** Widening the allowed list never rejects a type that passed before. */
  lemma MoreTypesAllowMore(contentType: string, allowed: seq<string>, extra: seq<string>)
    ensures ValidateFileType(contentType, allowed).Pass? ==>
            ValidateFileType(contentType, allowed + extra).Pass?
  {
  }

  /** `get_file_path`: '<folder>/<id>.<ext>'. */
  function FilePath(id: string, filename: string, folder: string): (path: string)
    ensures CoreUtils.Extension(path) == CoreUtils.Extension(filename)
  {
    var ext := CoreUtils.Extension(filename);
    CoreUtils.ExtensionAfterLastDot(folder + "/" + id, ext);
    folder + "/" + id + "." + ext
  }

  /** Only the extension of the uploaded name reaches the path. */
  lemma FilePathDropsBaseName(id: string, base: string, ext: string, folder: string)
    requires '.' !in ext
    ensures FilePath(id, base + "." + ext, folder) == folder + "/" + id + "." + ext
  {
    CoreUtils.ExtensionAfterLastDot(base, ext);
  }

  /** `image_path.replace('.', '_thumb.')`, the name the thumbnail is saved under. */
  function ThumbnailPath(imagePath: string): string
  {
    ReplaceChar(imagePath, '.', "_thumb.")
  }

  /** The rewrite leaves the text after the last dot alone, so the saved format is kept. */
  lemma ThumbnailKeepsExtension(imagePath: string)
    ensures CoreUtils.Extension(ThumbnailPath(imagePath)) == CoreUtils.Extension(imagePath)
  {
    var ext := CoreUtils.Extension(imagePath);
    if |ext| < |imagePath| {
      var base := imagePath[..|imagePath| - |ext| - 1];
      assert imagePath == base + ("." + ext);
      ThumbnailAtLastDot(base, ext);
      var front := ThumbnailPath(base) + "_thumb";
      assert "_thumb." == "_thumb" + ".";
      assert ThumbnailPath(base) + ("_thumb." + ext) == front + "." + ext;
      CoreUtils.ExtensionAfterLastDot(front, ext);
    } else {
      assert imagePath[|imagePath| - |ext|..] == imagePath;
    }
  }

  lemma ThumbnailAtLastDot(base: string, ext: string)
    requires '.' !in ext
    ensures ThumbnailPath(base + ("." + ext)) == ThumbnailPath(base) + ("_thumb." + ext)
  {
    ReplaceCharAppend(base, "." + ext, '.', "_thumb.");
    ReplaceCharAppend(".", ext, '.', "_thumb.");
    assert ReplaceChar(".", '.', "_thumb.") == "_thumb.";
  }

  /** Every dot is rewritten: the path is cut at its dots and glued back with '_thumb.'. */
  lemma ThumbnailRewritesEveryDot(imagePath: string)
    ensures ThumbnailPath(imagePath) == JoinWith(Split(imagePath, '.'), "_thumb.")
  {
    ReplaceIsSplitJoin(imagePath, '.', "_thumb.");
  }

  /** Up to the first dot nothing changes; that dot becomes '_thumb.'. */
  lemma ThumbnailAtFirstDot(head: string, rest: string)
    requires '.' !in head
    ensures ThumbnailPath(head + "." + rest) == head + "_thumb." + ThumbnailPath(rest)
  {
    assert head + "." + rest == head + ("." + rest);
    ReplaceCharAppend(head, "." + rest, '.', "_thumb.");
    ReplaceCharAppend(".", rest, '.', "_thumb.");
    assert ReplaceChar(".", '.', "_thumb.") == "_thumb.";
  }

  /** A dot in a directory name is rewritten too, not only the one before the extension. */
  lemma DotInDirectoryRewritten(dir1: string, dir2: string, name: string, ext: string)
    requires '.' !in dir1 && '.' !in dir2 && '.' !in name && '.' !in ext
    ensures ThumbnailPath(dir1 + "." + dir2 + "/" + name + "." + ext) ==
            dir1 + "_thumb." + dir2 + "/" + name + "_thumb." + ext
  {
    var mid := dir2 + "/" + name;
    assert '.' !in mid by {
      assert forall i :: 0 <= i < |mid| ==> mid[i] in dir2 || mid[i] == '/' || mid[i] in name;
    }
    assert dir1 + "." + dir2 + "/" + name + "." + ext == dir1 + "." + (mid + "." + ext);
    ThumbnailAtFirstDot(dir1, mid + "." + ext);
    ThumbnailAtFirstDot(mid, ext);
  }

  /** A path without a dot is left as it is: the thumbnail would be saved over the image. */
  lemma ThumbnailWithoutDot(imagePath: string)
    requires '.' !in imagePath
    ensures ThumbnailPath(imagePath) == imagePath
  {
  }
}
