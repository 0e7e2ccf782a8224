/** The route handler of `POST /api/extractTextCoordinates` and the global error
    handler of index.js, with the two library calls (sharp's PNG conversion and
    Tesseract's recognition) taken as inputs. */
module Handler {
  import opened Wrappers
  import opened JsText
  import opened Ocr
  import opened Upload

  const NoImageMessage: string := "No image uploaded. Please upload a valid image."
  const NoTextMessage: string := "No readable text found in the image."
  const InternalErrorMessage: string := "Internal Server Error. Please try again later."
  /** What the global error handler sends when the error has no message. */
  const FallbackMessage: string := "Internal Server Error"

  /** The JSON body of a response: `{success:false, error}` or
      `{success:true, extractedText, textCoordinates}`. */
  datatype Envelope =
    | Failed(error: string)
    | Succeeded(extractedText: string, textCoordinates: seq<TextCoordinate>)
  {
    /** The `success` field of the body. */
    predicate Success() { Succeeded? }
  }

  datatype Response = Response(status: int, body: Envelope)

  /** Tesseract's engine mode and page segmentation mode, as named constants. */
  datatype EngineMode = OemDefault
  datatype PageSegMode = PsmAuto

  /** The options of `Tesseract.recognize`: the language model and the two modes. */
  datatype OcrOptions = OcrOptions(language: string, engineMode: EngineMode, pageSegMode: PageSegMode)

  /** The options the handler always passes: English, default engine, automatic
      page segmentation. */
  const RecognizeOptions: OcrOptions := OcrOptions("eng", OemDefault, PsmAuto)

  /** A call the handler makes into a library, with its arguments. */
  datatype Call = ToPng(input: Bytes) | Recognize(image: Bytes, options: OcrOptions)

  /** What the model treats as given: sharp's `toFormat("png").toBuffer()`, which
      resolves with the PNG bytes or rejects; `Tesseract.recognize`, which resolves
      with `data` or rejects; and the message of multer's size-limit error. The
      rejection reasons are strings that the handler only logs. */
  datatype Libraries = Libraries(
    toPng: Bytes -> Result<Bytes, string>,
    recognize: (Bytes, OcrOptions) -> Result<Recognition, string>,
    sizeLimitMessage: string)

  /** The response a request gets, and the library calls made to produce it. */
  datatype Exchange = Exchange(response: Response, calls: seq<Call>)

  /** The text `!data.text || data.text.trim() === ""` rejects. */
  predicate NoReadableText(text: Option<string>) {
    text.None? || Trim(text.value) == ""
  }

  /** Steps 4 and 5 of the handler, once recognition has resolved with `data`:
      blank text gives 400; otherwise the words are projected, and a missing word
      list makes `data.words.map` throw, which the handler's catch turns into 500. */
  function AfterRecognition(data: Recognition): (r: Response)
    ensures NoReadableText(data.text) ==> r == Response(400, Failed(NoTextMessage))
    ensures !NoReadableText(data.text) && data.words.None? ==> r == Response(500, Failed(InternalErrorMessage))
    ensures r.status == 200 <==> !NoReadableText(data.text) && data.words.Some?
    ensures r.status == 200 ==>
      && r.body.Succeeded?
      && r.body.extractedText == data.text.value
      && r.body.textCoordinates == Project(data.words.value)
  {
    if NoReadableText(data.text) then
      Response(400, Failed(NoTextMessage))
    else
      match data.words
      case None => Response(500, Failed(InternalErrorMessage))
      case Some(words) =>
        Response(200, Succeeded(data.text.value, Project(words)))
  }

  /** The route handler, given the file multer stored (if any). */
  function HandleUpload(file: Option<File>, libs: Libraries): (x: Exchange)
    ensures file.None? || file.value.buffer.None? ==>
      x == Exchange(Response(400, Failed(NoImageMessage)), [])
    ensures x.response.status in {200, 400, 500}
    ensures x.response.body.Success() <==> x.response.status == 200
    ensures !x.response.body.Success() ==> x.response.body.error != ""
    // Library calls: sharp first, on the uploaded buffer; Tesseract second, on
    // sharp's output and with the fixed options, and only if sharp resolved.
    ensures |x.calls| <= 2
    ensures |x.calls| >= 1 ==> file.Some? && file.value.buffer.Some? && x.calls[0] == ToPng(file.value.buffer.value)
    ensures |x.calls| == 2 <==> |x.calls| >= 1 && libs.toPng(file.value.buffer.value).Ok?
    ensures |x.calls| == 2 ==> x.calls[1] == Recognize(libs.toPng(file.value.buffer.value).value, RecognizeOptions)
    // What the response is once the library calls return.
    ensures file.Some? && file.value.buffer.Some? ==> |x.calls| >= 1
    ensures file.Some? && file.value.buffer.Some? && libs.toPng(file.value.buffer.value).Err? ==>
      x.response == Response(500, Failed(InternalErrorMessage))
    ensures file.Some? && file.value.buffer.Some? && libs.toPng(file.value.buffer.value).Ok? ==>
      var rec := libs.recognize(libs.toPng(file.value.buffer.value).value, RecognizeOptions);
      x.response == (if rec.Ok? then AfterRecognition(rec.value) else Response(500, Failed(InternalErrorMessage)))
  {
    if file.None? || file.value.buffer.None? then
      Exchange(Response(400, Failed(NoImageMessage)), [])
    else
      var buffer := file.value.buffer.value;
      match libs.toPng(buffer)
      case Err(_) => Exchange(Response(500, Failed(InternalErrorMessage)), [ToPng(buffer)])
      case Ok(png) =>
        var calls := [ToPng(buffer), Recognize(png, RecognizeOptions)];
        match libs.recognize(png, RecognizeOptions)
        case Err(_) => Exchange(Response(500, Failed(InternalErrorMessage)), calls)
        case Ok(data) => Exchange(AfterRecognition(data), calls)
  }

  /** Express's error-handling middleware: status 500 with the error's own
      message, or a fixed one when the message is empty. */
  function GlobalErrorHandler(message: string): (r: Response)
    ensures r.status == 500 && r.body.Failed? && r.body.error != ""
    ensures message != "" ==> r.body.error == message
    ensures message == "" ==> r.body.error == FallbackMessage
  {
    Response(500, Failed(if message == "" then FallbackMessage else message))
  }

  /** A whole request: multer first, its errors to the global error handler, and
      the route handler otherwise. */
  function Serve(part: Option<Part>, libs: Libraries): (x: Exchange)
    ensures part.None? ==> x == Exchange(Response(400, Failed(NoImageMessage)), [])
    ensures part.Some? && part.value.mimetype !in AllowedMimeTypes ==>
      x == Exchange(Response(500, Failed(InvalidTypeMessage)), [])
    ensures part.Some? && part.value.mimetype in AllowedMimeTypes && |part.value.content| > MaxFileSize ==>
      x == Exchange(GlobalErrorHandler(libs.sizeLimitMessage), [])
    ensures part.Some? && part.value.mimetype in AllowedMimeTypes && |part.value.content| <= MaxFileSize ==>
      var p := part.value;
      x == HandleUpload(Some(File(p.mimetype, |p.content|, Some(p.content))), libs)
  {
    match Receive(part, libs.sizeLimitMessage)
    case Err(e) => Exchange(GlobalErrorHandler(e.Message()), [])
    case Ok(file) => HandleUpload(file, libs)
  }
}
