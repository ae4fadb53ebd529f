/**
  `bsdf_init_distance_map`: the argument checks, the pixel-mode dispatch and
  the nested loops that seed the distance map in place.
 */
module BsdfInit {
  import opened BsdfTypes
  import opened BsdfSeed

  /**
    The error seeding reports. Missing arguments, a target smaller than the
    source and an unset pixel mode are invalid arguments; only 8-bit gray
    is implemented; the size check comes before any pixel-mode check.
   */
  function InitError(source: Option<Bitmap>, worker: Option<Worker>): (e: FtError)
    ensures e == Ok <==>
      && source.Some? && worker.Some?
      && source.value.width <= worker.value.width && source.value.rows <= worker.value.rows
      && source.value.pixelMode == Gray
    ensures e == UnimplementedFeature <==>
      && source.Some? && worker.Some?
      && source.value.width <= worker.value.width && source.value.rows <= worker.value.rows
      && source.value.pixelMode != ModeNone && source.value.pixelMode != Gray
    ensures e == Ok || e == InvalidArgument || e == UnimplementedFeature
  {
    if source.None? || worker.None? then InvalidArgument
    else if worker.value.width < source.value.width || worker.value.rows < source.value.rows then InvalidArgument
    else if source.value.pixelMode == ModeNone then InvalidArgument
    else
      match source.value.pixelMode
      case Gray2 | Gray4 | Gray16 | Lcd | LcdV | Mono => UnimplementedFeature
      case Gray => Ok
      case _ => UnimplementedFeature
  }

  /** A target narrower or shorter than the source is rejected whatever the pixel mode. */
  lemma TooSmallTargetRejected(src: Bitmap, worker: Worker)
    requires worker.width < src.width || worker.rows < src.rows
    ensures InitError(Some(src), Some(worker)) == InvalidArgument
  {
  }

  /** With both arguments present and the target large enough, the pixel mode alone decides. */
  lemma PixelModeDecides(src: Bitmap, worker: Worker)
    requires src.width <= worker.width && src.rows <= worker.rows
    ensures src.pixelMode == ModeNone ==> InitError(Some(src), Some(worker)) == InvalidArgument
    ensures src.pixelMode == Gray ==> InitError(Some(src), Some(worker)) == Ok
    ensures src.pixelMode in {Mono, Gray2, Gray4, Gray16, Lcd, LcdV, Bgra} || src.pixelMode.Other?
         ==> InitError(Some(src), Some(worker)) == UnimplementedFeature
  {
  }

  /**
    The seeding loop of the gray case: every cell of `worker`'s distance map,
    row by row, gets `FT_INT_MAX` when it is padding and the coverage of the
    sample it reads when it lies over the source. Only `dist` is written.
   */
  method SeedGray(src: Bitmap, worker: Worker)
    requires worker.Valid() && Fits(src, worker.width, worker.rows)
    modifies worker.distanceMap
    ensures worker.distanceMap[..]
         == SeededMap(old(worker.distanceMap[..]), src, worker.width, worker.rows, worker.params.flipY)
  {
    var t := worker.distanceMap;
    var tWidth, tRows := worker.width, worker.rows;
    var sWidth, sRows := src.width, src.rows;
    var flipY := worker.params.flipY;
    var xDiff := CenterOffset(tWidth, sWidth);
    var yDiff := CenterOffset(tRows, sRows);
    ghost var orig := t[..];
    ghost var seeded := SeededMap(orig, src, tWidth, tRows, flipY);

    var tj := 0;
    while tj < tRows
      invariant 0 <= tj <= tRows && tj * tWidth <= t.Length
      invariant forall k :: 0 <= k < tj * tWidth ==> t[k] == seeded[k]
      invariant forall k :: tj * tWidth <= k < t.Length ==> t[k] == orig[k]
    {
      ghost var rowStart := tj * tWidth;
      var ti := 0;
      while ti < tWidth
        invariant 0 <= ti <= tWidth && rowStart + ti <= t.Length
        invariant forall k :: 0 <= k < rowStart + ti ==> t[k] == seeded[k]
        invariant forall k :: rowStart + ti <= k < t.Length ==> t[k] == orig[k]
      {
        var tIndex := tj * tWidth + ti;
        SeededMapAt(orig, src, tWidth, tRows, flipY, ti, tj);
        var si := ti - xDiff;
        var sj := tj - yDiff;

        if si < 0 || si >= sWidth || sj < 0 || sj >= sRows {
          // padding: no boundary known yet
          t[tIndex] := t[tIndex].(dist := FT_INT_MAX);
        } else {
          var sIndex := SourceIndex(si, sj, sWidth, sRows, flipY);
          t[tIndex] := t[tIndex].(dist := Coverage(src.buffer[sIndex]));
        }
        ti := ti + 1;
      }
      assert rowStart + tWidth == (tj + 1) * tWidth;
      tj := tj + 1;
    }
    assert tRows * tWidth == t.Length;
    assert t[..] == seeded;
  }

  /**
    `bsdf_init_distance_map`: reports `InitError`, leaves the distance map
    untouched on every error, and on success leaves it seeded.
   */
  method InitDistanceMap(source: Option<Bitmap>, worker: Option<Worker>) returns (error: FtError)
    requires worker.Some? ==> worker.value.Valid()
    requires source.Some? && source.value.pixelMode == Gray ==> source.value.Valid()
    modifies if worker.Some? then {worker.value.distanceMap} else {}
    ensures error == InitError(source, worker)
    ensures worker.Some? && error != Ok ==> unchanged(worker.value.distanceMap)
    ensures error == Ok ==>
      && source.Some? && worker.Some?
      && Fits(source.value, worker.value.width, worker.value.rows)
      && worker.value.distanceMap[..]
         == SeededMap(old(worker.value.distanceMap[..]), source.value,
                      worker.value.width, worker.value.rows, worker.value.params.flipY)
  {
    if source.None? || worker.None? {
      return InvalidArgument;
    }
    var src, w := source.value, worker.value;

    // the source is centred in the target, so it must fit
    if w.width < src.width || w.rows < src.rows {
      return InvalidArgument;
    }

    if src.pixelMode == ModeNone {
      return InvalidArgument;
    }

    match src.pixelMode {
      case Gray2 | Gray4 | Gray16 | Lcd | LcdV | Mono =>
        error := UnimplementedFeature;
      case Gray =>
        SeedGray(src, w);
        error := Ok;
      case _ =>
        error := UnimplementedFeature;
    }
  }
}
