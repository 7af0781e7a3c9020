/** The shared file helpers: reading a picked file into a data URL and taking
    its base64 payload. The browser's `FileReader` is represented only by how
    its run ends. */
module FileUtil {
  import opened Wrappers
  import DataUrl

  /** An `Error` object, known by its message. */
  datatype JsError = JsError(message: string)

  const ReadFailedMessage := "文件读取失败"
  const EmptyContentMessage := "文件内容为空"

  /** What `reader.result` holds when loading ends: a string, an ArrayBuffer,
      or null. */
  datatype ReaderResult = TextResult(text: string) | BinaryResult | NullResult

  /** How a `readAsDataURL` run ends: `loadend` with the reader's result, or
      `error` with the reader's error object when it has one. */
  datatype ReaderOutcome = LoadEnded(result: ReaderResult) | ErrorRaised(error: Option<JsError>)

  /** `readFileAsDataUrl`: resolves with the reader's string result unchanged;
      any other result rejects with the read-failure error, and a reader error
      rejects with that error itself when there is one. */
  function ReadFileAsDataUrl(outcome: ReaderOutcome): (r: Result<string, JsError>)
    ensures r.Success? <==> outcome.LoadEnded? && outcome.result.TextResult?
    ensures r.Success? ==> r.value == outcome.result.text
    ensures outcome.ErrorRaised? && outcome.error.Some? ==> r == Failure(outcome.error.value)
    ensures r.Failure? && !(outcome.ErrorRaised? && outcome.error.Some?) ==>
              r.error == JsError(ReadFailedMessage)
  {
    match outcome
    case LoadEnded(TextResult(s)) => Success(s)
    case LoadEnded(_) => Failure(JsError(ReadFailedMessage))
    case ErrorRaised(e) => Failure(e.GetOr(JsError(ReadFailedMessage)))
  }

  /** `getBase64FromFile`: the second comma-separated field of the data URL;
      a missing or empty field rejects with the empty-content error, and a
      read failure is passed on as it is. */
  function GetBase64FromFile(outcome: ReaderOutcome): (r: Result<string, JsError>)
    ensures r.Success? ==> r.value != ""
    ensures r.Success? ==>
              (ReadFileAsDataUrl(outcome).Success? &&
               DataUrl.PayloadField(ReadFileAsDataUrl(outcome).value) == Some(r.value))
    ensures ReadFileAsDataUrl(outcome).Failure? ==> r == ReadFileAsDataUrl(outcome)
    ensures (ReadFileAsDataUrl(outcome).Success? &&
             DataUrl.PayloadField(ReadFileAsDataUrl(outcome).value).GetOr("") == "") ==>
              r == Failure(JsError(EmptyContentMessage))
    ensures (ReadFileAsDataUrl(outcome).Success? &&
             DataUrl.PayloadField(ReadFileAsDataUrl(outcome).value).GetOr("") != "") ==>
              r == Success(DataUrl.PayloadField(ReadFileAsDataUrl(outcome).value).value)
  {
    match ReadFileAsDataUrl(outcome)
    case Failure(e) => Failure(e)
    case Success(dataUrl) =>
      var base64 := DataUrl.PayloadField(dataUrl);
      if base64.None? || base64.value == "" then Failure(JsError(EmptyContentMessage))
      else Success(base64.value)
  }

  /** A file read as a base64 data URL with a non-empty payload yields that
      payload. */
  lemma GetBase64OfEncodedFile(mediaType: string, payload: string)
    requires ',' !in mediaType
    requires DataUrl.IsBase64(payload) && payload != ""
    ensures GetBase64FromFile(LoadEnded(TextResult(DataUrl.Encode(mediaType, payload)))) == Success(payload)
  {
    DataUrl.PayloadOfEncoded(mediaType, payload);
  }
}
