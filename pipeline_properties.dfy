/** What a client of the endpoint can rely on, stated over whole requests. */
module PipelineProperties {
  import opened Wrappers
  import opened JsText
  import opened Ocr
  import opened Upload
  import opened Handler

  /** A request whose image part multer accepts. */
  predicate Accepted(part: Option<Part>) {
    part.Some? && part.value.mimetype in AllowedMimeTypes && |part.value.content| <= MaxFileSize
  }

  /** Without an image the answer is always the same 400, and neither sharp nor
      Tesseract is called, so the answer does not depend on what they would do. */
  lemma NoImageIs400(libs: Libraries, other: Libraries)
    ensures Serve(None, libs) == Exchange(Response(400, Failed(NoImageMessage)), [])
    ensures Serve(None, libs) == Serve(None, other)
  {
  }

  /** A stored file without a buffer is treated like a missing file, whatever the
      libraries would do with it. */
  lemma MissingBufferIs400(mimetype: string, size: nat, libs: Libraries, other: Libraries)
    ensures HandleUpload(Some(File(mimetype, size, None)), libs)
         == Exchange(Response(400, Failed(NoImageMessage)), [])
    ensures HandleUpload(Some(File(mimetype, size, None)), libs)
         == HandleUpload(Some(File(mimetype, size, None)), other)
  {
  }

  /** A file of any other type is rejected by the filter: the global error handler
      answers 500 with the filter's message, and no library is called. */
  lemma InvalidTypeRejected(mimetype: string, content: Bytes, libs: Libraries)
    requires mimetype != "image/jpeg" && mimetype != "image/png" && mimetype != "image/webp"
    ensures Serve(Some(Part(mimetype, content)), libs)
         == Exchange(Response(500, Failed(InvalidTypeMessage)), [])
  {
  }

  /** A file of an allowed type over 5 MiB is rejected before it is converted:
      500 with multer's message, or the fallback message if that is empty. */
  lemma OversizeRejected(mimetype: string, content: Bytes, libs: Libraries)
    requires mimetype in AllowedMimeTypes && |content| > MaxFileSize
    ensures Serve(Some(Part(mimetype, content)), libs).calls == []
    ensures Serve(Some(Part(mimetype, content)), libs).response
         == Response(500, Failed(if libs.sizeLimitMessage == "" then FallbackMessage else libs.sizeLimitMessage))
  {
  }

  /** A failure of the conversion or of the recognition is answered with the
      generic 500, whatever the library's own error says. */
  lemma ProcessingFailureIsGeneric(part: Option<Part>, libs: Libraries, reason: string)
    requires Accepted(part)
    requires var png := libs.toPng(part.value.content);
             png == Err(reason) || (png.Ok? && libs.recognize(png.value, RecognizeOptions) == Err(reason))
    ensures Serve(part, libs).response == Response(500, Failed(InternalErrorMessage))
    ensures libs.toPng(part.value.content).Err? ==> Serve(part, libs).calls == [ToPng(part.value.content)]
  {
  }

  /** Once recognition resolves, the answer is 400 "no readable text" exactly when
      the text is missing or made only of white space and line terminators. */
  lemma {:induction false} BlankTextIs400(part: Option<Part>, libs: Libraries, data: Recognition)
    requires Accepted(part)
    requires libs.toPng(part.value.content).Ok?
    requires libs.recognize(libs.toPng(part.value.content).value, RecognizeOptions) == Ok(data)
    ensures Serve(part, libs).response == Response(400, Failed(NoTextMessage))
        <==> data.text.None? || IsBlank(data.text.value)
  {
    if data.text.Some? {
      TrimEmptyIffBlank(data.text.value);
    }
  }

  /** A request succeeds exactly when multer accepts the file, both library calls
      resolve, the text has a character `trim` keeps, and there is a word list. */
  lemma {:induction false} SuccessExactly(part: Option<Part>, libs: Libraries)
    ensures Serve(part, libs).response.status == 200 <==>
      && Accepted(part)
      && libs.toPng(part.value.content).Ok?
      && var data := libs.recognize(libs.toPng(part.value.content).value, RecognizeOptions);
      && data.Ok?
      && data.value.text.Some? && !IsBlank(data.value.text.value)
      && data.value.words.Some?
  {
    if Accepted(part) && libs.toPng(part.value.content).Ok? {
      var data := libs.recognize(libs.toPng(part.value.content).value, RecognizeOptions);
      if data.Ok? && data.value.text.Some? {
        TrimEmptyIffBlank(data.value.text.value);
      }
    }
  }

  /** On success the text comes back untrimmed and every recognised word comes
      back once, in order, with its own text and its box unchanged. */
  lemma SuccessBody(part: Option<Part>, libs: Libraries)
    ensures Serve(part, libs).response.status == 200 ==>
      && Accepted(part) && libs.toPng(part.value.content).Ok?
      && var data := libs.recognize(libs.toPng(part.value.content).value, RecognizeOptions);
      var body := Serve(part, libs).response.body;
      && data.Ok? && data.value.text.Some? && data.value.words.Some?
      && body.Success()
      && body.extractedText == data.value.text.value
      && |body.textCoordinates| == |data.value.words.value|
      && Unproject(body.textCoordinates) == data.value.words.value
  {
    if Serve(part, libs).response.status == 200 {
      var data := libs.recognize(libs.toPng(part.value.content).value, RecognizeOptions);
      UnprojectProject(data.value.words.value);
    }
  }

  /** The text is checked before the word list is read: blank text with no word
      list is still the 400, not the 500 that reading the missing list would give. */
  lemma TextCheckedBeforeWords(data: Recognition)
    requires data.text.None? || IsBlank(data.text.value)
    ensures AfterRecognition(data) == Response(400, Failed(NoTextMessage))
  {
    if data.text.Some? {
      TrimEmptyIffBlank(data.text.value);
    }
  }

  /** Every failure has `success:false` and a non-empty message; 400 carries only
      the missing-image or the unreadable-text message, and 500 only the generic
      message, the filter's message or multer's size-limit message (or its fallback). */
  lemma FailureEnvelope(part: Option<Part>, libs: Libraries)
    ensures var r := Serve(part, libs).response;
      && r.status in {200, 400, 500}
      && (r.body.Success() <==> r.status == 200)
      && (!r.body.Success() ==> r.body.error != "")
      && (r.status == 400 ==> r.body.error == NoImageMessage || r.body.error == NoTextMessage)
      && (r.status == 500 ==>
            || r.body.error == InternalErrorMessage || r.body.error == InvalidTypeMessage
            || r.body.error == libs.sizeLimitMessage || r.body.error == FallbackMessage)
  {
  }
}
