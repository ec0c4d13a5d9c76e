/** The calculator object: the state one interactive session accumulates (the log that
    is saved and reloaded, the threshold parameters, the decay-index volume and the
    population of sampled profiles) and the operations that change it. */
module Session {
  import opened Basics
  import opened Numerics
  import opened DecayIndex
  import opened PointSampler
  import opened Statistics
  import opened Crop

  /** Threshold height in Mm: cal_decay's default, and the value loadlog always sets. */
  const DEFAULT_H_THRESHOLD: real := 200.0

  /** The critical decay index of the torus instability: cal_decay's default. */
  const DEFAULT_KEY_DI: real := 1.5

  /** The session record. A key the calculator has not yet written is None. */
  datatype SessionLog = SessionLog(
    nr: int,
    rss: real,
    keyDi: Option<real>,
    cropArea: Option<CropArea>,
    coords: Option<seq<Coord>>)

  /** What one click produces besides the new population: the average of the click's
      own cells, and the averaged profile of the whole population with its spread. */
  datatype ClickReport = ClickReport(clickAverage: Result<Profile>, summary: Result<Summary>)

  /** How far the reconstruction step gets for a threshold: the first error among a
      volume that cannot be computed, a missing threshold and no height at or below it. */
  function RebuildOutcome(lib: Library, bg: Volume<FieldVector>, rg: seq<real>, threshold: Option<real>): (r: Outcome)
    requires Columns(bg, |rg|)
    ensures r.Pass? <==>
      (DecayIndexVolume(lib, bg, rg).Success? && threshold.Some? &&
       exists n :: 0 <= n < |rg| && HeightMm(lib, rg)[n] <= threshold.value)
    ensures r.Fail? ==> r.error in {LogOfNonPositiveField, LogOfNonPositiveHeight, ZeroLogHeightStep,
                                    MissingThreshold, NoHeightBelowThreshold}
  {
    var volume := DecayIndexVolume(lib, bg, rg);
    if volume.Failure? then Fail(volume.error)
    else if threshold.None? then Fail(MissingThreshold)
    else
      LimitedHeightsEmptyIff(HeightMm(lib, rg), threshold.value);
      if |LimitedHeights(HeightMm(lib, rg), threshold.value)| == 0 then Fail(NoHeightBelowThreshold)
      else Pass
  }

  class DecayIdxCalculator {
    var nr: int
    var rss: real
    var log: SessionLog
    var keyDi: Option<real>
    var hThreshold: Option<real>
    /** The sample population: one profile per neighbourhood cell of every click. */
    var decayIndexList: seq<Profile>
    var decayIndex: Option<Volume<real>>
    var heightMm: Option<seq<real>>
    var hLimited: Option<seq<real>>
    /** blc_a/trc_a and blc_h/trc_h. */
    var crop: Option<Rect>
    /** blc_la/trc_la and blc_lh/trc_lh. */
    var largeCrop: Option<Rect>

    /** The volume and the height axis always come from the same reconstruction: the
        volume has one layer fewer than there are heights. */
    ghost predicate Valid()
      reads this
    {
      decayIndex.Some? ==> heightMm.Some? && Columns(decayIndex.value, DecayDepth(|heightMm.value|))
    }

    /** The population is exactly what replaying the logged clicks through the pixel
        mapping yields, which is what plotlog relies on to rebuild it. */
    ghost predicate Replays(toPixel: Coord -> Option<Pixel>)
      reads this
    {
      Valid() && decayIndex.Some? && hThreshold.Some? && log.coords.Some? &&
      Replay(decayIndex.value, heightMm.value, hThreshold.value, log.coords.value, toPixel) == Success(decayIndexList)
    }

    constructor (nr: int, rss: real)
      ensures Valid()
      ensures this.nr == nr && this.rss == rss
      ensures log == SessionLog(nr, rss, None, None, None)
      ensures keyDi == None && hThreshold == None
      ensures decayIndexList == [] && decayIndex == None && heightMm == None && hLimited == None
      ensures crop == None && largeCrop == None
    {
      this.nr := nr;
      this.rss := rss;
      log := SessionLog(nr, rss, None, None, None);
      keyDi, hThreshold := None, None;
      decayIndexList := [];
      decayIndex, heightMm, hLimited := None, None, None;
      crop, largeCrop := None, None;
    }

    /** The nested loops of _onclick and plotlog: every cell of the block is appended on
        its own, row by row. */
    method AppendBlock(block: Volume<real>)
      modifies this`decayIndexList
      ensures decayIndexList == old(decayIndexList) + Flatten(block)
    {
      var i := 0;
      while i < |block|
        invariant 0 <= i <= |block|
        invariant decayIndexList == old(decayIndexList) + Flatten(block[..i])
      {
        var j := 0;
        while j < |block[i]|
          invariant 0 <= j <= |block[i]|
          invariant decayIndexList == old(decayIndexList) + Flatten(block[..i]) + block[i][..j]
        {
          decayIndexList := decayIndexList + [block[i][j]];
          j := j + 1;
        }
        assert block[..i + 1][..i] == block[..i];
        i := i + 1;
      }
      assert block[..|block|] == block;
    }

    /** The fields the shared reconstruction step of cal_decay and plotlog sets, given
        the values they held before it: each is replaced only once the step that computes
        it is reached. */
    ghost predicate Rebuilt(lib: Library, bg: Volume<FieldVector>, rg: seq<real>,
                            oldDecayIndex: Option<Volume<real>>, oldHeightMm: Option<seq<real>>, oldLimited: Option<seq<real>>)
      requires Columns(bg, |rg|)
      reads this
    {
      var volume := DecayIndexVolume(lib, bg, rg);
      if volume.Failure? then
        decayIndex == oldDecayIndex && heightMm == oldHeightMm && hLimited == oldLimited
      else
        decayIndex == Some(volume.value) && heightMm == Some(HeightMm(lib, rg)) &&
        hLimited == (if hThreshold.None? then oldLimited else Some(LimitedHeights(HeightMm(lib, rg), hThreshold.value)))
    }

    /** The reconstruction step cal_decay and plotlog share: empty the population, derive
        the decay-index volume and the height axis from the solver's output, and select the
        heights at or below the threshold, of which there must be at least one (h_limited[-1]
        is read straight after). Each step runs only if the previous one completed. */
    method Reconstruct(lib: Library, bg: Volume<FieldVector>, rg: seq<real>) returns (r: Outcome)
      requires Valid()
      requires Columns(bg, |rg|)
      modifies this`decayIndexList, this`decayIndex, this`heightMm, this`hLimited
      ensures Valid()
      ensures decayIndexList == []
      ensures r == RebuildOutcome(lib, bg, rg, hThreshold)
      ensures Rebuilt(lib, bg, rg, old(decayIndex), old(heightMm), old(hLimited))
      ensures r.Pass? ==> decayIndex.Some? && heightMm.Some? && hThreshold.Some?
    {
      decayIndexList := [];
      var volume := DecayIndexVolume(lib, bg, rg);
      if volume.Failure? {
        return Fail(volume.error);
      }
      decayIndex := Some(volume.value);
      heightMm := Some(HeightMm(lib, rg));
      if hThreshold.None? {
        return Fail(MissingThreshold);
      }
      hLimited := Some(LimitedHeights(heightMm.value, hThreshold.value));
      if |hLimited.value| == 0 {
        return Fail(NoHeightBelowThreshold);
      }
      r := Pass;
    }

    /** cal_decay (and cal_decay_ss, identical in what is modelled): record the given
        parameters, rebuild the volume, and start an empty click log once the rebuild
        has succeeded. The overlay it starts with reads the crop corners, so without them
        nothing is changed. */
    method CalDecay(lib: Library, bg: Volume<FieldVector>, rg: seq<real>, thresholdArg: Option<real>, keyDiArg: Option<real>)
      returns (r: Outcome)
      requires Valid()
      requires Columns(bg, |rg|)
      modifies this
      ensures Valid()
      ensures nr == old(nr) && rss == old(rss) && crop == old(crop) && largeCrop == old(largeCrop)
      ensures old(crop).None? ==> r == Fail(CropNotSet) && unchanged(this)
      ensures old(crop).Some? ==> keyDi == (if keyDiArg.Some? then keyDiArg else old(keyDi))
      ensures old(crop).Some? ==> hThreshold == (if thresholdArg.Some? then thresholdArg else old(hThreshold))
      ensures old(crop).Some? ==> decayIndexList == []
      ensures old(crop).Some? ==> r == RebuildOutcome(lib, bg, rg, hThreshold)
      ensures old(crop).Some? ==> Rebuilt(lib, bg, rg, old(decayIndex), old(heightMm), old(hLimited))
      ensures old(crop).Some? ==>
        log == old(log).(keyDi := if keyDiArg.Some? then keyDiArg else old(log.keyDi),
                         coords := if r.Pass? then Some([]) else old(log.coords))
      ensures r.Pass? ==> forall toPixel: Coord -> Option<Pixel> :: Replays(toPixel)
    {
      if crop.None? {
        return Fail(CropNotSet);
      }
      if keyDiArg.Some? {
        log := log.(keyDi := keyDiArg);
        keyDi := keyDiArg;
      }
      if thresholdArg.Some? {
        hThreshold := thresholdArg;
      }
      r := Reconstruct(lib, bg, rg);
      if r.Pass? {
        log := log.(coords := Some([]));
      }
    }

    /** _onclick: log the clicked coordinate, map it onto the decay-index grid, and
        append every cell profile of its neighbourhood block to the population. Mapping
        the click reads the cropped map, so before any crop nothing is logged. */
    method OnClick(lib: Library, coord: Coord, toPixel: Coord -> Option<Pixel>) returns (r: Result<ClickReport>)
      requires Valid()
      modifies this
      ensures Valid()
      ensures nr == old(nr) && rss == old(rss) && keyDi == old(keyDi) && hThreshold == old(hThreshold)
      ensures decayIndex == old(decayIndex) && heightMm == old(heightMm) && hLimited == old(hLimited)
      ensures crop == old(crop) && largeCrop == old(largeCrop)
      ensures old(crop).None? ==> r == Failure(CropNotSet) && unchanged(this)
      ensures old(crop).Some? && old(log.coords).None? ==>
        r == Failure(MissingCoords) && log == old(log) && decayIndexList == old(decayIndexList)
      ensures old(crop).Some? && old(log.coords).Some? ==> log == old(log).(coords := Some(old(log.coords.value) + [coord]))
      ensures old(crop).Some? && old(log.coords).Some? && decayIndex.None? ==>
        r == Failure(VolumeNotComputed) && decayIndexList == old(decayIndexList)
      ensures old(crop).Some? && old(log.coords).Some? && decayIndex.Some? && hThreshold.None? ==>
        r == Failure(MissingThreshold) && decayIndexList == old(decayIndexList)
      ensures old(crop).Some? && old(log.coords).Some? && decayIndex.Some? && hThreshold.Some? ==>
        var block := ClickPointDecay(decayIndex.value, heightMm.value, hThreshold.value, toPixel(coord));
        if block.Failure? then
          r == Failure(block.error) && decayIndexList == old(decayIndexList)
        else
          decayIndexList == old(decayIndexList) + Flatten(block.value) &&
          r == Success(ClickReport(Mean(Flatten(block.value)), Summarize(lib, decayIndexList)))
      ensures old(Replays(toPixel)) && r.Success? ==> Replays(toPixel)
    {
      if crop.None? {
        return Failure(CropNotSet);
      }
      if log.coords.None? {
        return Failure(MissingCoords);
      }
      ghost var coords := log.coords.value;
      log := log.(coords := Some(log.coords.value + [coord]));
      var pixel := toPixel(coord);
      if decayIndex.None? {
        return Failure(VolumeNotComputed);
      }
      if hThreshold.None? {
        return Failure(MissingThreshold);
      }
      var block := ClickPointDecay(decayIndex.value, heightMm.value, hThreshold.value, pixel);
      if block.Failure? {
        return Failure(block.error);
      }
      if old(Replays(toPixel)) {
        ReplayAppend(decayIndex.value, heightMm.value, hThreshold.value, coords, coord, toPixel);
      }
      AppendBlock(block.value);
      r := Success(ClickReport(Mean(Flatten(block.value)), Summarize(lib, decayIndexList)));
    }

    /** plotlog: rebuild the volume and then the population, by replaying every logged
        click in order, and summarise it. The threshold and the log are read, never
        written. The overlay it starts with reads the crop corners, so without them nothing
        is changed; a click that fails ends the replay and leaves the earlier clicks' cells. */
    method PlotLog(lib: Library, bg: Volume<FieldVector>, rg: seq<real>, toPixel: Coord -> Option<Pixel>) returns (r: Result<Summary>)
      requires Valid()
      requires Columns(bg, |rg|)
      modifies this
      ensures Valid()
      ensures nr == old(nr) && rss == old(rss) && log == old(log) && keyDi == old(keyDi) && hThreshold == old(hThreshold)
      ensures crop == old(crop) && largeCrop == old(largeCrop)
      ensures old(crop).None? ==> r == Failure(CropNotSet) && unchanged(this)
      ensures old(crop).Some? ==> Rebuilt(lib, bg, rg, old(decayIndex), old(heightMm), old(hLimited))
      ensures old(crop).Some? ==>
        var stage := RebuildOutcome(lib, bg, rg, hThreshold);
        if stage.Fail? then r == Failure(stage.error) && decayIndexList == []
        else if log.coords.None? then r == Failure(MissingCoords) && decayIndexList == []
        else
          var di, hm := DecayIndexVolume(lib, bg, rg).value, HeightMm(lib, rg);
          var replay := Replay(di, hm, hThreshold.value, log.coords.value, toPixel);
          decayIndexList == ReplayedCells(di, hm, hThreshold.value, log.coords.value, toPixel) &&
          if replay.Failure? then r == Failure(replay.error)
          else r == Summarize(lib, replay.value)
      ensures r.Success? || r.error == EmptyPopulation ==> Replays(toPixel)
      ensures r.Failure? ==> r.error != RaggedPopulation
    {
      if crop.None? {
        return Failure(CropNotSet);
      }
      var stage := Reconstruct(lib, bg, rg);
      if stage.Fail? {
        return Failure(stage.error);
      }
      if log.coords.None? {
        return Failure(MissingCoords);
      }
      var replay := ReplayLog(toPixel);
      if replay.Failure? {
        ReplayFailsIff(decayIndex.value, heightMm.value, hThreshold.value, log.coords.value, toPixel);
        return Failure(replay.error);
      }
      ReplayedSummary(lib, decayIndex.value, heightMm.value, hThreshold.value, log.coords.value, toPixel);
      r := Summarize(lib, decayIndexList);
    }

    /** The loop of plotlog over the logged clicks: each click's block is appended to the
        population, which starts empty; the first click that fails ends the loop with its
        error, and the cells already appended stay. */
    method ReplayLog(toPixel: Coord -> Option<Pixel>) returns (r: Result<seq<Profile>>)
      requires Valid() && decayIndex.Some? && hThreshold.Some? && log.coords.Some?
      requires decayIndexList == []
      modifies this`decayIndexList
      ensures var replay := Replay(decayIndex.value, heightMm.value, hThreshold.value, log.coords.value, toPixel);
        r == replay && decayIndexList == ReplayedCells(decayIndex.value, heightMm.value, hThreshold.value, log.coords.value, toPixel)
    {
      var di, hm, th, coords := decayIndex.value, heightMm.value, hThreshold.value, log.coords.value;
      var n := 0;
      while n < |coords|
        invariant 0 <= n <= |coords|
        invariant Replay(di, hm, th, coords[..n], toPixel) == Success(decayIndexList)
      {
        var block := ClickPointDecay(di, hm, th, toPixel(coords[n]));
        if block.Failure? {
          ReplayFailsAt(di, hm, th, coords, n, toPixel);
          return Failure(block.error);
        }
        ReplayAppend(di, hm, th, coords[..n], coords[n], toPixel);
        assert coords[..n + 1] == coords[..n] + [coords[n]];
        AppendBlock(block.value);
        n := n + 1;
      }
      assert coords[..|coords|] == coords;
      r := Success(decayIndexList);
    }

    /** preplot, from the point the operator has clicked the centre and typed the height
        and width: log the crop geometry and compute the crop corners. */
    method PrePlot(center: Coord, height: int, width: int)
      modifies this
      ensures log == old(log).(cropArea := Some(CropArea(center, height, width)))
      ensures crop == Some(CropRect(CropArea(center, height, width)))
      ensures nr == old(nr) && rss == old(rss) && keyDi == old(keyDi) && hThreshold == old(hThreshold)
      ensures decayIndexList == old(decayIndexList) && decayIndex == old(decayIndex)
      ensures heightMm == old(heightMm) && hLimited == old(hLimited) && largeCrop == old(largeCrop)
    {
      log := log.(cropArea := Some(CropArea(center, height, width)));
      crop := Some(CropRect(CropArea(center, height, width)));
    }

    /** loadlog, given the record instead of the file: take the whole log, reset the
        threshold to its default, restore key_di and rebuild the crop corners from the
        logged geometry. nr and rss stay those the calculator was built with. */
    method LoadLog(saved: SessionLog) returns (r: Outcome)
      modifies this
      ensures log == saved && hThreshold == Some(DEFAULT_H_THRESHOLD)
      ensures saved.keyDi.None? ==> r == Fail(MissingKeyDi) && keyDi == old(keyDi) && crop == old(crop)
      ensures saved.keyDi.Some? ==> keyDi == saved.keyDi
      ensures saved.keyDi.Some? && saved.cropArea.None? ==> r == Fail(MissingCropArea) && crop == old(crop)
      ensures saved.keyDi.Some? && saved.cropArea.Some? ==> r == Pass && crop == Some(CropRect(saved.cropArea.value))
      ensures nr == old(nr) && rss == old(rss) && decayIndexList == old(decayIndexList) && decayIndex == old(decayIndex)
      ensures heightMm == old(heightMm) && hLimited == old(hLimited) && largeCrop == old(largeCrop)
    {
      log := saved;
      hThreshold := Some(DEFAULT_H_THRESHOLD);
      if saved.keyDi.None? {
        return Fail(MissingKeyDi);
      }
      keyDi := saved.keyDi;
      if saved.cropArea.None? {
        return Fail(MissingCropArea);
      }
      crop := Some(CropRect(saved.cropArea.value));
      r := Pass;
    }

    /** plotmlines, up to the field-line tracing: the wider crop from the logged geometry. */
    method PlotMLines() returns (r: Outcome)
      modifies this`largeCrop
      ensures log.cropArea.None? ==> r == Fail(MissingCropArea) && largeCrop == old(largeCrop)
      ensures log.cropArea.Some? ==> r == Pass && largeCrop == Some(LargeCropRect(log.cropArea.value))
    {
      if log.cropArea.None? {
        return Fail(MissingCropArea);
      }
      largeCrop := Some(LargeCropRect(log.cropArea.value));
      r := Pass;
    }
  }

  /** A replayed population is never ragged, since every profile has one entry per
      selected height: its summary fails exactly when no click was logged, or all the
      logged blocks were empty. */
  lemma ReplayedSummary(lib: Library, di: Volume<real>, heights: seq<real>, threshold: real,
                        coords: seq<Coord>, toPixel: Coord -> Option<Pixel>)
    requires Columns(di, DecayDepth(|heights|))
    requires Replay(di, heights, threshold, coords, toPixel).Success?
    ensures var pop := Replay(di, heights, threshold, coords, toPixel).value;
      (Summarize(lib, pop).Failure? <==> pop == []) &&
      (Summarize(lib, pop).Failure? ==> Summarize(lib, pop).error == EmptyPopulation)
  {
    var pop := Replay(di, heights, threshold, coords, toPixel).value;
    if pop != [] {
      assert Uniform(pop, |pop[0]|);
    }
  }

  /** A whole session followed by a reload: crop, compute the decay index, click, save
      the log; a new calculator that loads the saved log gets back the same crop corners,
      and the log carries every click in order. */
  method SaveAndReload(lib: Library, bg: Volume<FieldVector>, rg: seq<real>, nr: int, rss: real,
                       center: Coord, height: int, width: int, clicks: seq<Coord>, toPixel: Coord -> Option<Pixel>)
    returns (computed: Outcome, saved: SessionLog, cropBefore: Option<Rect>, cropAfter: Option<Rect>)
    requires Columns(bg, |rg|)
    ensures cropBefore == Some(CropRect(CropArea(center, height, width)))
    ensures cropAfter == cropBefore
    ensures saved.keyDi == Some(DEFAULT_KEY_DI)
    ensures computed.Pass? ==> saved.coords == Some(clicks)
  {
    var session := new DecayIdxCalculator(nr, rss);
    session.PrePlot(center, height, width);
    computed := session.CalDecay(lib, bg, rg, Some(DEFAULT_H_THRESHOLD), Some(DEFAULT_KEY_DI));
    assert computed.Pass? ==> session.log.coords == Some([]);
    ClickAll(session, lib, clicks, toPixel);
    assert computed.Pass? ==> [] + clicks == clicks;
    saved := session.log;
    cropBefore := session.crop;
    var reloaded := new DecayIdxCalculator(nr, rss);
    var _ := reloaded.LoadLog(saved);
    cropAfter := reloaded.crop;
  }

  /** Clicks every coordinate in turn on a cropped session: the log collects them in
      order and the rest of the log and the crop stay as they were. */
  method ClickAll(session: DecayIdxCalculator, lib: Library, clicks: seq<Coord>, toPixel: Coord -> Option<Pixel>)
    requires session.Valid() && session.crop.Some?
    modifies session
    ensures session.Valid() && session.crop == old(session.crop)
    ensures session.log.keyDi == old(session.log.keyDi) && session.log.cropArea == old(session.log.cropArea)
    ensures old(session.log.coords).Some? ==> session.log.coords == Some(old(session.log.coords.value) + clicks)
  {
    ghost var start := session.log.coords;
    assert start.Some? ==> start.value + clicks[..0] == start.value;
    for k := 0 to |clicks|
      invariant session.Valid() && session.crop == old(session.crop)
      invariant session.log.keyDi == old(session.log.keyDi) && session.log.cropArea == old(session.log.cropArea)
      invariant start.Some? ==> session.log.coords == Some(start.value + clicks[..k])
    {
      var _ := session.OnClick(lib, clicks[k], toPixel);
      assert start.Some? ==> start.value + clicks[..k + 1] == start.value + clicks[..k] + [clicks[k]];
    }
    assert clicks[..|clicks|] == clicks;
  }
}
