/** The multer middleware configured in index.js: a file filter with a MIME-type
    allow-list and a 5 MiB size limit on the single `image` file of a request. */
module Upload {
  import opened Wrappers

  type Byte = bv8
  type Bytes = seq<Byte>

  /** `limits.fileSize`: 5 * 1024 * 1024 bytes. */
  const MaxFileSize: nat := 5 * 1024 * 1024

  /** The MIME types the file filter lets through. */
  const AllowedMimeTypes: seq<string> := ["image/jpeg", "image/png", "image/webp"]

  /** The message of the error the file filter raises. */
  const InvalidTypeMessage: string := "Invalid file type. Only JPEG, PNG, and WEBP are allowed."

  /** The file part named `image` as multipart parsing delivers it: its declared
      MIME type and its bytes. */
  datatype Part = Part(mimetype: string, content: Bytes)

  /** `req.file` as the route handler sees it. multer's memory storage always sets
      `buffer`; the handler still checks for it, so it is optional here. */
  datatype File = File(mimetype: string, size: nat, buffer: Option<Bytes>)

  /** An error multer passes on to Express's error handler instead of calling the
      route handler: the filter's rejection, or multer's own `LIMIT_FILE_SIZE`
      error, whose message multer chooses. */
  datatype UploadError = FilterRejected(message: string) | FileTooLarge(message: string)
  {
    /** `err.message` as the global error handler reads it. */
    function Message(): string {
      match this
      case FilterRejected(m) => m
      case FileTooLarge(m) => m
    }
  }

  /** The `fileFilter` callback: passes exactly the three image types and rejects
      anything else with the fixed invalid-type error. */
  function FileFilter(mimetype: string): (r: Outcome<UploadError>)
    ensures r.Pass? <==> mimetype == "image/jpeg" || mimetype == "image/png" || mimetype == "image/webp"
    ensures r.Fail? ==> r.error == FilterRejected(InvalidTypeMessage)
  {
    if mimetype !in AllowedMimeTypes then Fail(FilterRejected(InvalidTypeMessage)) else Pass
  }

  /** `upload.single("image")`: no part gives no file; otherwise the filter is
      consulted first and the size limit second (multer calls the filter before it
      reads the file's bytes), and a file that passes both is stored in memory.
      `sizeLimitMessage` is the message of multer's size-limit error. */
  function Receive(part: Option<Part>, sizeLimitMessage: string): (r: Result<Option<File>, UploadError>)
    ensures part.None? ==> r == Ok(None)
    ensures part.Some? ==>
      (r.Ok? <==> FileFilter(part.value.mimetype).Pass? && |part.value.content| <= MaxFileSize)
    ensures part.Some? && FileFilter(part.value.mimetype).Fail? ==> r == Err(FilterRejected(InvalidTypeMessage))
    ensures part.Some? && FileFilter(part.value.mimetype).Pass? && |part.value.content| > MaxFileSize ==>
      r == Err(FileTooLarge(sizeLimitMessage))
    ensures part.Some? && r.Ok? ==> r.value.Some?
    ensures r.Ok? && r.value.Some? ==>
      var f := r.value.value;
      && part.Some? && f.mimetype == part.value.mimetype && f.buffer == Some(part.value.content)
      && f.size == |part.value.content| <= MaxFileSize
  {
    match part
    case None => Ok(None)
    case Some(p) =>
      match FileFilter(p.mimetype)
      case Fail(e) => Err(e)
      case Pass =>
        if |p.content| > MaxFileSize then Err(FileTooLarge(sizeLimitMessage))
        else Ok(Some(File(p.mimetype, |p.content|, Some(p.content))))
  }

  /** The limit is 5242880 bytes, and a file of exactly that size is still accepted. */
  lemma LimitBoundary(mimetype: string, content: Bytes, m: string)
    requires mimetype in AllowedMimeTypes
    ensures |content| == 5242880 ==> Receive(Some(Part(mimetype, content)), m).Ok?
    ensures |content| == 5242881 ==> Receive(Some(Part(mimetype, content)), m) == Err(FileTooLarge(m))
  {
  }

  /** The type check comes first: a file of a refused type is refused as such,
      whatever its size and whatever the size-limit error would say. */
  lemma TypeCheckedBeforeSize(mimetype: string, a: Bytes, b: Bytes, m1: string, m2: string)
    requires mimetype !in AllowedMimeTypes
    ensures Receive(Some(Part(mimetype, a)), m1) == Receive(Some(Part(mimetype, b)), m2)
  {
  }
}
