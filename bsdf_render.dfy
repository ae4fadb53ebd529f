/**
  The parameter checks `bsdf_raster_render` makes, in order, before it
  allocates anything. The allocation and what follows it are not modelled.
 */
module BsdfRender {
  import opened BsdfTypes

  /** The spread lies within the accepted bounds. */
  predicate SpreadInRange(spread: int) {
    MIN_SPREAD <= spread <= MAX_SPREAD
  }

  /**
    The first failing check of `bsdf_raster_render`, or `Ok` when all pass:
    a missing raster or parameter block, then a wrong flag, then a missing
    source or target bitmap, then a raster without a memory handle, then a
    spread out of range.
   */
  function ValidateRender(raster: Option<BsdfRaster>, params: Option<SdfRasterParams>): (e: FtError)
    ensures e == Ok <==>
      && raster.Some? && params.Some?
      && params.value.root.flags == RASTER_FLAG_SDF
      && params.value.root.source.Some? && params.value.root.target.Some?
      && raster.value.hasMemory
      && SpreadInRange(params.value.spread)
    ensures e == RasterCorrupted <==>
      raster.Some? && params.Some? && params.value.root.flags != RASTER_FLAG_SDF
    ensures e == InvalidHandle <==>
      && raster.Some? && params.Some?
      && params.value.root.flags == RASTER_FLAG_SDF
      && params.value.root.source.Some? && params.value.root.target.Some?
      && !raster.value.hasMemory
    ensures e == Ok || e == InvalidArgument || e == RasterCorrupted || e == InvalidHandle
  {
    if raster.None? || params.None? then InvalidArgument
    else if params.value.root.flags != RASTER_FLAG_SDF then RasterCorrupted
    else if params.value.root.source.None? || params.value.root.target.None? then InvalidArgument
    else if !raster.value.hasMemory then InvalidHandle
    else if params.value.spread > MAX_SPREAD || params.value.spread < MIN_SPREAD then InvalidArgument
    else Ok
  }

  /**
    The checks are ordered: once an earlier check fails, nothing a later
    check looks at can change the result.
   */
  lemma EarlierCheckDecides(raster: Option<BsdfRaster>, params: Option<SdfRasterParams>,
                            source: Option<Bitmap>, target: Option<Bitmap>, hasMemory: bool, spread: nat)
    requires raster.Some? && params.Some?
    requires params.value.root.flags != RASTER_FLAG_SDF
    ensures ValidateRender(Some(BsdfRaster(hasMemory)),
                           Some(params.value.(root := params.value.root.(source := source, target := target),
                                              spread := spread)))
         == ValidateRender(raster, params) == RasterCorrupted
  {
  }

  /** A spread outside the bounds is an invalid argument once every earlier check passes. */
  lemma SpreadOutOfRangeRejected(raster: BsdfRaster, params: SdfRasterParams)
    requires params.root.flags == RASTER_FLAG_SDF
    requires params.root.source.Some? && params.root.target.Some? && raster.hasMemory
    ensures ValidateRender(Some(raster), Some(params)) == InvalidArgument <==> !SpreadInRange(params.spread)
  {
  }

  /** The validation never depends on the pixel data, the bitmap sizes or the other SDF settings. */
  lemma ValidationIgnoresBitmapsAndSettings(raster: Option<BsdfRaster>, params: SdfRasterParams,
                                            source: Bitmap, target: Bitmap, flipY: bool, overlaps: bool)
    requires params.root.source.Some? && params.root.target.Some?
    ensures ValidateRender(raster, Some(params.(root := params.root.(source := Some(source), target := Some(target)),
                                                flipY := flipY, overlaps := overlaps)))
         == ValidateRender(raster, Some(params))
  {
  }
}
