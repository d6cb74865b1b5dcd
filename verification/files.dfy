/** The poll file service: downloading a stored attachment with the content
    type and file name the browser is given. */
module Files {
  import opened Wrappers
  import opened Text
  import opened Schema

  /** `MediaTypeNames.Application.Octet`. */
  const OctetStream: string := "application/octet-stream"

  /** The name given to a file stored without one. */
  const DefaultName: string := "file"

  /** The pieces of the `FileContentResult` the download produces. */
  datatype Download = Download(content: seq<bv8>, contentType: string, fileName: string)

  /** The content type sent for a stored file type. */
  function ContentTypeOf(fileType: string): (r: string)
    ensures IsBlank(fileType) ==> r == OctetStream
    ensures !IsBlank(fileType) ==> r == fileType
    ensures !IsBlank(r)
  {
    if IsBlank(fileType) then
      assert !IsWhiteSpace(OctetStream[0]);
      OctetStream
    else fileType
  }

  /** The download name sent for a stored file name and the content type chosen. */
  function FileNameOf(filename: string, contentType: string): (r: string)
    ensures !IsBlank(filename) ==> r == filename
    ensures IsBlank(filename) ==> |r| >= |DefaultName| && r[..|DefaultName|] == DefaultName
    ensures IsBlank(filename) ==> (r == DefaultName + ".png" <==> Contains(contentType, "image"))
    ensures IsBlank(filename) ==> (r == DefaultName <==> !Contains(contentType, "image"))
  {
    if IsBlank(filename) then DefaultName + (if Contains(contentType, "image") then ".png" else "")
    else filename
  }

  /** `DownloadFileAsync`. A missing file and a file whose content is null are
      both reported as not found. */
  function DownloadFile(files: map<Id, PollFile>, fileId: Id): (r: Result<Download>)
    ensures r.Ok? <==> fileId in files && files[fileId].content.Some?
    ensures r.Err? ==> r.error == NotFound
    ensures r.Ok? ==>
      var f := files[fileId];
      && r.value.content == f.content.value
      && r.value.contentType == ContentTypeOf(f.fileType)
      && r.value.fileName == FileNameOf(f.filename, r.value.contentType)
  {
    if fileId !in files || files[fileId].content.None? then Err(NotFound)
    else
      var f := files[fileId];
      var contentType := ContentTypeOf(f.fileType);
      Ok(Download(f.content.value, contentType, FileNameOf(f.filename, contentType)))
  }

  /** A string that contains `sub` contains every character of `sub`. */
  lemma ContainsChars(s: string, sub: string, c: char)
    requires Contains(s, sub) && c in sub
    ensures c in s
  {
    var i :| 0 <= i <= |s| && OccursAt(s, sub, i);
    var j :| 0 <= j < |sub| && sub[j] == c;
    assert s[i + j] == s[i..i + |sub|][j];
  }

  /** The default content type is not an image type. */
  lemma OctetStreamIsNotImage()
    ensures !Contains(OctetStream, "image")
  {
    if Contains(OctetStream, "image") {
      assert "image"[3] == 'g';
      ContainsChars(OctetStream, "image", 'g');
    }
  }

  /** A file stored with neither a type nor a name downloads as an octet stream
      called `file`, with its content untouched. */
  lemma UntypedUnnamedFile(files: map<Id, PollFile>, fileId: Id)
    requires fileId in files && files[fileId].content.Some?
    requires IsBlank(files[fileId].fileType) && IsBlank(files[fileId].filename)
    ensures DownloadFile(files, fileId) == Ok(Download(files[fileId].content.value, OctetStream, DefaultName))
  {
    OctetStreamIsNotImage();
  }

  /** An unnamed file whose type mentions an image is named `file.png`. */
  lemma UnnamedImageIsPng(files: map<Id, PollFile>, fileId: Id)
    requires fileId in files && files[fileId].content.Some?
    requires IsBlank(files[fileId].filename) && Contains(files[fileId].fileType, "image")
    ensures DownloadFile(files, fileId).Ok?
    ensures DownloadFile(files, fileId).value.fileName == DefaultName + ".png"
    ensures DownloadFile(files, fileId).value.contentType == files[fileId].fileType
  {
    var f := files[fileId];
    assert "image"[0] == 'i';
    ContainsChars(f.fileType, "image", 'i');
    var j :| 0 <= j < |f.fileType| && f.fileType[j] == 'i';
    assert !IsWhiteSpace(f.fileType[j]);
  }
}
