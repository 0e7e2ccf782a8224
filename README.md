# Text-Picker backend: the request-decision layer

The backend exposes one endpoint, `POST /api/extractTextCoordinates`. It takes a
single uploaded image in the multipart field `image`, converts it to PNG with
sharp, runs Tesseract OCR on it, and answers with the recognised text and one
bounding box per word. Everything the repository itself decides lives in
`index.js`:

- the multer configuration, which is a MIME-type allow-list and a 5 MiB size limit;
- the route handler's checks and its one projection of the word list;
- the mapping of every outcome to a status code and a JSON envelope.

This project models that layer as pure Dafny functions over datatypes. The two
library calls are inputs of type `Libraries`:

- `toPng: Bytes -> Result<Bytes, string>` stands for sharp's conversion;
- `recognize: (Bytes, OcrOptions) -> Result<Recognition, string>` stands for Tesseract's recognition.

The handler returns an `Exchange`. This holds the response, meaning the status and
the envelope, together with the list of library calls it made. That list lets the
model state three things: which stages a request reaches, the order of the calls,
and that Tesseract receives sharp's output.

Modules:

- `Wrappers`: the `Option`, `Result` and `Outcome` values used throughout.
- `JsText`: the white-space set that JavaScript's `String.prototype.trim` strips, and `Trim` itself.
- `Ocr`: Tesseract's `data`, meaning its text and its words with `bbox`, plus the projection to `{text, border}`.
- `Upload`: the file filter, the size limit, and the `upload.single("image")` step.
- `Handler`: the route handler, the global error handler, and `Serve`, which runs both middlewares and so covers a whole request.
- `PipelineProperties`: properties stated over whole requests.

Two behaviours of the code are easy to misstate:

- A file of a refused type, or one over the size limit, never reaches the route
  handler. multer passes its error to the global error handler, which answers
  **500** with the error's own message. It is not a 400.
- The code places no ordering requirement on bounding boxes. It passes them
  through unchanged, so `minX <= maxX` holds in the response exactly when the
  engine's box had `x0 <= x1` (`Ocr.ProjectKeepsBoxOrder`).

## Model

| member | source | states |
|---|---|---|
| `Upload.FileFilter` | index.js:12-20 | The filter allows a file exactly when its type is `image/jpeg`, `image/png` or `image/webp`. It rejects every other type with the error "Invalid file type. Only JPEG, PNG, and WEBP are allowed." |
| `Upload.Receive` | index.js:10-21 | A request with no `image` part passes on no file. Otherwise a part is accepted exactly when the filter allows its type and it has at most 5 MiB. A refused type gives the filter's error, even when the file is also too large. An oversized file of an allowed type gives multer's size-limit error. An accepted file keeps its MIME type, its size is its byte count, and its buffer is its bytes. |
| `Upload.LimitBoundary` | index.js:11 | The limit is 5242880 bytes. A file of exactly that size is accepted, and one byte more is refused. |
| `Upload.TypeCheckedBeforeSize` | index.js:10-21 | The type is checked first. A file of a refused type gets the same answer whatever its contents or size. |
| `JsText.TrimStart` | index.js:49 | Removes the leading white space. The result is a suffix of the input that does not start with a trimmable character, and the part removed is blank. |
| `JsText.TrimEnd` | index.js:49 | Removes the trailing white space. The result is a prefix of the input that does not end with a trimmable character, and the part removed is blank. |
| `JsText.Trim` | index.js:49 | `text.trim()`: the result is empty, or it starts and ends with a character that `trim` keeps. |
| `JsText.TrimKeepsMiddle` | index.js:49 | Trimming removes only a blank prefix and a blank suffix. The rest of the text is kept as it was. |
| `JsText.TrimEmptyIffBlank` | index.js:49 | `text.trim() === ""` holds exactly when every character of the text is white space or a line terminator. |
| `JsText.TrimIdempotent` | index.js:49 | A sanity fact about the `Trim` model, which the handler calls only once: trimming a trimmed text changes nothing. |
| `Ocr.ToCoordinate` | index.js:58-61 | The projection of one word loses nothing: reading the entry back gives the original word. |
| `Ocr.Project` | index.js:57-62 | `data.words.map(...)` produces exactly one entry per word, in the same order. Each entry's `text` is the word's `text`, and `minX, minY, maxX, maxY` are `x0, y0, x1, y1`. |
| `Ocr.UnprojectProject` | index.js:57-62 | Undoing the projection gives back the exact word list. So no word is dropped, added, reordered or changed. |
| `Ocr.ProjectInjective` | index.js:57-62 | Different word lists always give different `textCoordinates`. |
| `Ocr.ProjectKeepsBoxOrder` | index.js:58-60 | Every response border is ordered exactly when every engine box is ordered. No swapping or clamping is applied. |
| `Handler.AfterRecognition` | index.js:48-71 | If the text is absent, or trims to "", the response is 400 "No readable text found in the image.". If the text is non-blank but there is no word list, `.map` throws and the response is the generic 500. The response is 200 exactly when the text is non-blank and a word list exists. On 200, `success` is true, `extractedText` is the untrimmed text, and `textCoordinates` is the projection of the words. |
| `Handler.HandleUpload` | index.js:27-73 | With no file or no buffer, the response is 400 "No image uploaded. Please upload a valid image." and no library is called. The status is always 200, 400 or 500. `success` is true exactly when the status is 200, and every failure has a non-empty message. sharp is called first, on the uploaded buffer. Tesseract is called second, only if sharp resolved, on sharp's PNG output with the fixed options. A file with a buffer always reaches sharp. If sharp rejects, the response is the generic 500. Otherwise the response is that of `AfterRecognition` on Tesseract's `data`, or the generic 500 if Tesseract rejects. |
| `Handler.GlobalErrorHandler` | index.js:77-82 | The response is 500 with `success:false`. A non-empty error message is sent as it is, and an empty one is replaced by exactly "Internal Server Error". |
| `Handler.Serve` | index.js:10-27 | A whole request, stated by the kind of part it carries. No `image` part gives the 400 "No image uploaded. Please upload a valid image." with no library call. A part of a refused type gives 500 with the filter's message, and nothing reaches the handler or a library. A part of an allowed type over 5242880 bytes gives the global error handler's answer to multer's size-limit message, again with no call. Any other part reaches the route handler as a file with its MIME type, its byte count as size, and its bytes as buffer. |
| `PipelineProperties.NoImageIs400` | index.js:30-35 | A request without an image always gives the same 400 with the exact message. It calls no library, so the answer is the same whatever the libraries would do. |
| `PipelineProperties.MissingBufferIs400` | index.js:30-35 | A file without a buffer gets the same 400 as a missing file, whatever the libraries would do. |
| `PipelineProperties.InvalidTypeRejected` | index.js:13-19 | A file of a refused type gets 500 with the filter's message, and no library is called. |
| `PipelineProperties.OversizeRejected` | index.js:10-81 | A file of an allowed type over 5242880 bytes is never converted. The response is 500 with multer's message, or "Internal Server Error" if that message is empty. |
| `PipelineProperties.ProcessingFailureIsGeneric` | index.js:38-71 | When the conversion or the recognition fails, the response is 500 "Internal Server Error. Please try again later.", whatever the reason for the failure. If the conversion fails, Tesseract is not called. |
| `PipelineProperties.BlankTextIs400` | index.js:49-54 | Once recognition resolves, the response is the 400 "no readable text" exactly when the text is absent or consists only of white space and line terminators. |
| `PipelineProperties.SuccessExactly` | index.js:27-65 | A request gets 200 exactly when all of these hold: the file has an allowed type and is within the limit, both library calls resolve, the text has a non-white-space character, and a word list exists. |
| `PipelineProperties.SuccessBody` | index.js:57-65 | On 200, `extractedText` is `data.text` as returned. `textCoordinates` has one entry per word, and reading it back gives the word list exactly. |
| `PipelineProperties.TextCheckedBeforeWords` | index.js:49-62 | Blank text gives the 400 even when the word list is missing. The text check comes before the words are read. |
| `PipelineProperties.FailureEnvelope` | index.js:27-82 | Every status is 200, 400 or 500, and `success` is true exactly on 200. Every failure message is non-empty. A 400 carries only the missing-image or the no-text message. A 500 carries only the generic message, the filter's message, or multer's size-limit message or its fallback. |

## Left out

- Server bootstrap is not modelled: the Express app, the CORS policy, `app.listen` and the `PORT` variable. These are transport concerns, not decisions.
- sharp's decoding and PNG re-encoding, and Tesseract's recognition, are foreign libraries. Each is an opaque function that resolves or rejects. The engine and segmentation modes are named constants, without their numeric values.
- multer's multipart parsing is taken as given. The input is the `image` part: absent, or a MIME type with bytes.
- Upload.LimitBoundary: the limit is read as multer documents `limits.fileSize`: at most that many bytes are accepted. The exact byte count at which the upload is cut off belongs to busboy, which is not part of this model.
- multer's other errors, such as an unexpected field name or too many parts, are not modelled.
- The text of multer's size-limit error belongs to multer, so it is a parameter, `Libraries.sizeLimitMessage`.
- `async`/`await` is modelled as straight-line code. No concurrency is involved.
- `console.error` logging is left out, because it is not part of the response.
- Strings are sequences of Unicode scalar values, while JavaScript strings are UTF-16 code units. Every character `trim` strips lies in the Basic Multilingual Plane, so trimming behaves the same. A lone surrogate cannot be represented.
- Tesseract's other per-word fields, such as confidence, are never read and are not modelled.
- A word without a `bbox` would make the destructuring throw and give the generic 500. The model assumes every word has a box.
- A `data.text` that is present but not a string is not modelled.
- Box coordinates are unbounded integers. JavaScript numbers are doubles, but the handler does no arithmetic on them.
- Determinism of repeated requests comes for free: every member is a function of its inputs.
