/**
  The records the bitmap-to-SDF raster works on: FreeType error codes, pixel
  modes, the caller's bitmaps and parameter block, the per-cell distance
  record `ED` and the per-call worker that owns the distance map.
 */
module BsdfTypes {

  datatype Option<+T> = None | Some(value: T)

  /** The FreeType error codes this raster can return. */
  datatype FtError =
    | Ok
    | InvalidArgument
    | UnimplementedFeature
    | RasterCorrupted
    | InvalidHandle

  /**
    `FT_Pixel_Mode`: how the samples of a bitmap are encoded. The field is an
    `unsigned char`, so `Other` stands for a code that names none of the modes.
   */
  datatype PixelMode =
    | ModeNone
    | Mono
    | Gray
    | Gray2
    | Gray4
    | Gray16
    | Lcd
    | LcdV
    | Bgra
    | Other(code: Byte)

  /** `FT_INT_MAX`: the "no boundary known yet" sentinel of a padding cell. */
  const FT_INT_MAX: int := 0x7FFF_FFFF

  /** 1.0 in 16.16 fixed point. */
  const FIXED_ONE: int := 0x1_0000

  /** The only value of `root.flags` the raster accepts. */
  const RASTER_FLAG_SDF: int := 0x20

  /** Inclusive bounds on the `spread` parameter. */
  const MIN_SPREAD: int := 2
  const MAX_SPREAD: int := 32

  /** `FT_Byte`. */
  type Byte = b: int | 0 <= b < 256

  /**
    `FT_Bitmap`, restricted to what the raster reads. The buffer is indexed
    with `width` as the row stride; `pitch` is never consulted.
   */
  datatype Bitmap = Bitmap(width: nat, rows: nat, pixelMode: PixelMode, buffer: seq<Byte>)
  {
    /** The buffer holds at least `width * rows` samples. */
    predicate Valid() {
      width * rows <= |buffer|
    }
  }

  /** `FT_Raster_Params`: the part the raster consults. */
  datatype RasterParams = RasterParams(flags: int, source: Option<Bitmap>, target: Option<Bitmap>)

  /** `SDF_Raster_Params`: the generic block extended with the SDF settings. */
  datatype SdfRasterParams = SdfRasterParams(root: RasterParams, spread: nat, flipY: bool, overlaps: bool)

  /** `BSDF_TRaster`: the raster object; its only field is the memory handle. */
  datatype BsdfRaster = BsdfRaster(hasMemory: bool)

  /** `FT_16D16_Vec`. */
  datatype Vec16D16 = Vec16D16(x: int, y: int)

  /** `ED`: the distance at the nearest point, and that point. */
  datatype ED = ED(dist: int, near: Vec16D16)

  /**
    `BSDF_Worker`: the distance map (a flat `width * rows` grid of `ED`,
    row-major), the target size and the caller's parameters.
   */
  datatype Worker = Worker(distanceMap: array<ED>, width: nat, rows: nat, params: SdfRasterParams)
  {
    /** The distance map has exactly one record per target cell. */
    predicate Valid() {
      distanceMap.Length == width * rows
    }
  }
}
