/** What the converter sees of the world outside it: the located rendering engine, the PDF and
    image files it opens, the directories it cannot write, and the files it leaves behind. */
module Host {

  datatype Option<T> = None | Some(value: T)

  datatype Result<T> = Ok(value: T) | Err(error: string)

  /** What a conversion job returns: (True, value, out_dir) or (False, message, None). */
  datatype JobResult<T> = Succeeded(value: T, outDir: string) | Failed(message: string)

  /** An opened image: the file it came from and its colour mode ("RGB", "RGBA", "P", "L", ...). */
  datatype Image = Image(source: string, mode: string)

  /** What the image library makes of a file. */
  datatype ImageFile = Decodable(mode: string) | Undecodable(error: string)

  /** What the PDF libraries make of a file: its page count and the pages whose rendering or
      JPEG saving raises, with the message; or the error that reading its structure raises. */
  datatype PdfFile = PdfDocument(pageCount: nat, pageErrors: map<nat, string>) | Unparsable(error: string)

  datatype World = World(
    engine: Option<string>,           // the rendering engine's binary directory, when located
    pdfs: map<string, PdfFile>,
    images: map<string, ImageFile>,
    unwritable: map<string, string>)  // directory -> the error creating or writing into it raises

  /** A change to the file system, in the order the job makes it. */
  datatype Effect =
    | MakeDir(dir: string)
    | WriteJpeg(path: string, pdf: string, page: nat, dpi: int)
    | WritePdf(path: string, pages: seq<Image>)

  /** str() of the FileNotFoundError that opening a missing file raises. */
  function FileNotFoundMessage(path: string): string
  {
    "[Errno 2] No such file or directory: '" + path + "'"
  }

  /** len(PdfReader(path).pages), or the error that reading raises. */
  function PageCount(w: World, path: string): Result<nat>
  {
    if path !in w.pdfs then Err(FileNotFoundMessage(path))
    else match w.pdfs[path]
      case PdfDocument(n, _) => Ok(n)
      case Unparsable(e) => Err(e)
  }

  /** The error rendering or saving page `page` of the PDF raises, if any. */
  function RenderError(w: World, path: string, page: nat): Option<string>
  {
    if path in w.pdfs && w.pdfs[path].PdfDocument? && page in w.pdfs[path].pageErrors
    then Some(w.pdfs[path].pageErrors[page])
    else None
  }

  /** Image.open(path) */
  function OpenImage(w: World, path: string): Result<Image>
  {
    if path !in w.images then Err(FileNotFoundMessage(path))
    else match w.images[path]
      case Decodable(m) => Ok(Image(path, m))
      case Undecodable(e) => Err(e)
  }

  /** img.convert(mode) */
  function Convert(img: Image, mode: string): Image
  {
    img.(mode := mode)
  }
}
