/** What the screens share: the placeholder shown for an empty text, the
    upload callback that stores a picked file's payload, and the conversion of
    a stored file into an adapter attachment. */
module ViewInputs {
  import opened Wrappers
  import DataUrl
  import FileUtil
  import Gemini

  const SeeAttachment := "见附件"
  const DefaultMimeType := "application/pdf"

  /** `text || '见附件'`: never empty, and the user's own text whenever there
      is one. */
  function ShownText(text: string): (shown: string)
    ensures shown != ""
    ensures text != "" ==> shown == text
    ensures text == "" ==> shown == SeeAttachment
  {
    if text == "" then SeeAttachment else text
  }

  /** A stored upload; `data` is `None` when the data URL had no comma. */
  datatype MediaFile = MediaFile(data: Option<string>, mimeType: string, name: string)

  /** A file picked in a file input: its name, its browser-reported type
      (empty when unknown) and what the reader held when loading ended. */
  datatype PickedFile = PickedFile(name: string, fileType: string, result: FileUtil.ReaderResult)

  /** `file.type || 'application/pdf'`. */
  function MimeOrPdf(fileType: string): (mime: string)
    ensures mime != ""
    ensures fileType != "" ==> mime == fileType
    ensures fileType == "" ==> mime == DefaultMimeType
  {
    if fileType == "" then DefaultMimeType else fileType
  }

  /** The screens' `onloadend` callback: it stores the second comma-separated
      field of the reader's string, unchecked, with the file's type or the
      PDF default. A non-string result makes `.split` throw inside the
      callback, so nothing is stored (None). */
  function MediaFromUpload(file: PickedFile): (media: Option<MediaFile>)
    ensures media.Some? <==> file.result.TextResult?
    ensures media.Some? ==> media.value.data == DataUrl.PayloadField(file.result.text)
    ensures media.Some? ==> media.value.mimeType == MimeOrPdf(file.fileType) && media.value.name == file.name
  {
    match file.result
    case TextResult(dataUrl) => Some(MediaFile(DataUrl.PayloadField(dataUrl), MimeOrPdf(file.fileType), file.name))
    case _ => None
  }

  /** A file read as a base64 data URL is stored with exactly its payload. */
  lemma UploadOfEncodedFile(name: string, fileType: string, mediaType: string, payload: string)
    requires ',' !in mediaType && DataUrl.IsBase64(payload)
    ensures MediaFromUpload(PickedFile(name, fileType, FileUtil.TextResult(DataUrl.Encode(mediaType, payload))))
            == Some(MediaFile(Some(payload), MimeOrPdf(fileType), name))
  {
    DataUrl.PayloadOfEncoded(mediaType, payload);
  }

  /** The attachment sent for a stored file: its data and type, unchanged. */
  function ToMediaItem(file: MediaFile): (item: Gemini.MediaItem)
    ensures item.data == file.data && item.mimeType == file.mimeType
  {
    Gemini.MediaItem(file.data, file.mimeType)
  }
}
