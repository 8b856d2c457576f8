/** The upload drop-zone: which files it accepts, which file of a list it
    looks at, and the drag-highlight flag. Reading the file is not modelled:
    its result is an input. */
module ImageUploader {
  import opened Wrappers

  /** The parts of a browser `File` the drop-zone and the controller use. */
  datatype File = File(name: string, mimeType: string, size: nat)

  /** 10 MiB: the largest accepted file, in bytes. */
  const MaxFileSize: nat := 10 * 1024 * 1024

  const ImagePrefix: string := "image/"

  const TypeAlert: string := "请上传图片文件"
  const SizeAlert: string := "图片大小不能超过 10MB"

  /** `s.startsWith(prefix)` */
  predicate StartsWith(s: string, prefix: string) {
    |prefix| <= |s| && s[..|prefix|] == prefix
  }

  datatype Verdict = Accept | RejectType | RejectSize

  /** The two checks of `processFile`, the type check first. */
  function Check(file: File): (v: Verdict)
    ensures v == Accept <==> StartsWith(file.mimeType, ImagePrefix) && file.size <= MaxFileSize
    ensures v == RejectType <==> !StartsWith(file.mimeType, ImagePrefix)
    ensures v == RejectSize <==> StartsWith(file.mimeType, ImagePrefix) && file.size > MaxFileSize
  {
    if !StartsWith(file.mimeType, ImagePrefix) then RejectType
    else if file.size > MaxFileSize then RejectSize
    else Accept
  }

  /** What handling one file leads to: an alert, a call of
      `onImageSelected(dataUrl, file)`, or nothing visible. */
  datatype Outcome = Alerted(message: string) | Selected(dataUrl: string, file: File) | NoEffect

  /** `processFile`; `read` is the result of reading the file as a data URL,
      `None` when the read never completes. */
  function ProcessFile(file: File, read: Option<string>): (o: Outcome)
    ensures o.Selected? <==> Check(file) == Accept && read.Some? && read.value != ""
    ensures o.Selected? ==> o.file == file && o.dataUrl == read.value
    ensures o.Alerted? <==> Check(file) != Accept
    ensures o.Alerted? ==> o.message == (if Check(file) == RejectType then TypeAlert else SizeAlert)
  {
    match Check(file)
    case RejectType => Alerted(TypeAlert)
    case RejectSize => Alerted(SizeAlert)
    case Accept =>
      if read.Some? && read.value != "" then Selected(read.value, file) else NoEffect
  }

  /** `files && files[0]`: the first file of a non-empty list. */
  function FirstFile(files: Option<seq<File>>): (f: Option<File>)
    ensures f.Some? <==> files.Some? && |files.value| > 0
    ensures f.Some? ==> f.value == files.value[0]
  {
    if files.Some? && |files.value| > 0 then Some(files.value[0]) else None
  }

  /** `handleChange`: the first chosen file, if any, goes through `processFile`. */
  function HandleChange(files: Option<seq<File>>, read: Option<string>): (o: Outcome)
    ensures FirstFile(files).None? ==> o == NoEffect
    ensures FirstFile(files).Some? ==> o == ProcessFile(files.value[0], read)
  {
    match FirstFile(files)
    case None => NoEffect
    case Some(f) => ProcessFile(f, read)
  }

  /** Every file that reaches `onImageSelected` is an image of at most 10 MiB
      and comes with a non-empty data URL. */
  lemma SelectedFilesAreAcceptable(files: Option<seq<File>>, read: Option<string>)
    requires HandleChange(files, read).Selected?
    ensures var o := HandleChange(files, read);
      o.file == files.value[0] && StartsWith(o.file.mimeType, ImagePrefix)
      && o.file.size <= MaxFileSize && o.dataUrl != ""
  {
  }

  /** The size limit is inclusive: an image of exactly 10 MiB passes, one
      byte more is refused; and a file that fails both checks gets the type
      message. */
  lemma SizeBoundary(name: string, mimeType: string)
    ensures StartsWith(mimeType, ImagePrefix) ==> Check(File(name, mimeType, 10485760)) == Accept
    ensures StartsWith(mimeType, ImagePrefix) ==> Check(File(name, mimeType, 10485761)) == RejectSize
    ensures !StartsWith(mimeType, ImagePrefix) ==> ProcessFile(File(name, mimeType, 10485761), None) == Alerted(TypeAlert)
  {
  }

  /** The drop-zone and its highlight flag. */
  class DropZone {
    var dragActive: bool

    constructor ()
      ensures !dragActive
    {
      dragActive := false;
    }

    /** `handleDrag`, for an event of the given type. */
    method HandleDrag(eventType: string)
      modifies this
      ensures eventType == "dragenter" || eventType == "dragover" ==> dragActive
      ensures eventType == "dragleave" ==> !dragActive
      ensures eventType != "dragenter" && eventType != "dragover" && eventType != "dragleave" ==>
        dragActive == old(dragActive)
    {
      if eventType == "dragenter" || eventType == "dragover" {
        dragActive := true;
      } else if eventType == "dragleave" {
        dragActive := false;
      }
    }

    /** `handleDrop`: clears the highlight, then handles the first dropped file. */
    method HandleDrop(files: Option<seq<File>>, read: Option<string>) returns (o: Outcome)
      modifies this
      ensures !dragActive
      ensures o == HandleChange(files, read)
    {
      dragActive := false;
      o := HandleChange(files, read);
    }
  }
}
