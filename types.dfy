/** The values that flow through the barcode detection service, and the
    foreign capabilities (decoder, rasterizer, image codec) it calls. */
module BarcodeTypes {

  datatype Option<+T> = None | Some(value: T)

  /** One byte of an uploaded file, a raster or a decoded payload. */
  newtype byte = b: int | 0 <= b < 256

  /** A decoder rectangle in pixels: left, top, width, height. */
  datatype Rect = Rect(x: nat, y: nat, width: nat, height: nat)

  /** One symbol as the decoder reports it. */
  datatype RawDetection = RawDetection(symbolType: string, payload: seq<byte>, rect: Rect)

  /** A page image: its size in pixels and the raster that only the
      foreign decoder and encoder look at. */
  datatype Image = Image(width: nat, height: nat, raster: seq<byte>)

  /** A crop box as the image library takes it: left, upper, right, lower. */
  datatype CropBox = CropBox(left: int, upper: int, right: int, lower: int)

  /** One emitted barcode dictionary. `page` is None until the request
      handler stamps the page number on it. */
  datatype Record = Record(
    index: nat,
    symbolType: string,
    data: string,
    rect: Rect,
    location: string,
    imageBase64: string,
    page: Option<nat>)

  /** The foreign code the pipeline calls, as total functions:
      - normalize: UTF-8 decoding of a payload, or the textual form of the raw bytes;
      - decode: loading the pixels and converting them to grayscale, then
        the symbol decoder; None when either raises (a truncated upload
        opens, but fails once its pixels are loaded);
      - encode: crop to the box, PNG encoding and base64; None when it raises;
      - rasterize: the PDF rasterizer at 300 dpi; None when it raises;
      - openImage: opening the upload as an image; None when it raises. */
  datatype Capabilities = Capabilities(
    normalize: seq<byte> -> string,
    decode: Image -> Option<seq<RawDetection>>,
    encode: (Image, CropBox) -> Option<string>,
    rasterize: seq<byte> -> Option<seq<Image>>,
    openImage: seq<byte> -> Option<Image>)
}
