/**
 * The orchestration of `processPDF`: the configuration-derived constants,
 * the status reports, and the loop that renders every group's pages through
 * the page renderer, stitches them and collects one encoded image per group.
 * The renderer and the canvas encoder are browser and pdf.js services; they
 * enter the model as function parameters.
 */
module Pipeline {
  import opened Common
  import opened Decimal
  import opened Layout
  import Partition

  datatype Quality = High | Normal

  /** `StitchConfig`: the user's choices for one run. */
  datatype StitchConfig = StitchConfig(splitCount: nat, direction: Direction, quality: Quality, gap: bool, border: bool)

  /** `ProcessingStatus['step']`. */
  datatype Step = Loading | Rendering | Stitching | Zipping | Done | Error

  /** `ProcessingStatus`: what the status callback receives. */
  datatype Status = Status(step: Step, progress: real, message: Option<string>)

  /**
   * Renders page `pageNum` (1-based) at a scale: the page's canvas size, or
   * the text of the error pdf.js raised.
   */
  type Renderer = (int, real) -> Result<Dim, string>

  /**
   * `canvas.toDataURL(mime, quality)` minus its prefix: the base64 image
   * data, or nothing when the browser cannot serialise the canvas (for
   * one past its limits on side length or area).
   */
  type Encoder = (Composite, string, real) -> Option<string>

  /** The pdf.js render scale. */
  function RenderScale(q: Quality): real {
    if q == High then 2.0 else 1.5
  }

  /** The MIME type of the encoded images. */
  function Mime(q: Quality): string {
    if q == High then "image/png" else "image/jpeg"
  }

  /** The encoder quality argument. */
  function EncoderQuality(q: Quality): real {
    if q == High then 1.0 else 0.8
  }

  /** Pixels left between neighbouring pages. */
  function GapSize(config: StitchConfig): nat {
    if config.gap then (if config.quality == High then 40 else 20) else 0
  }

  /** The border stroke width. */
  function BorderWidth(q: Quality): nat {
    if q == High then 4 else 2
  }

  /**
   * The quality tiers: high quality renders at twice the page size into
   * lossless PNG with a 40 pixel gap and 4 pixel borders; normal renders at
   * one and a half into JPEG at 0.8 with half the gap and border; without
   * `gap` no space is left at all.
   */
  lemma QualityTiers(config: StitchConfig)
    ensures GapSize(config) == 0 <==> !config.gap
    ensures config.quality == High ==>
              && RenderScale(High) == 2.0 && Mime(High) == "image/png" && EncoderQuality(High) == 1.0
              && BorderWidth(High) == 4 && (config.gap ==> GapSize(config) == 40)
    ensures config.quality == Normal ==>
              && RenderScale(Normal) == 1.5 && Mime(Normal) == "image/jpeg" && EncoderQuality(Normal) == 0.8
              && BorderWidth(Normal) == 2 && (config.gap ==> GapSize(config) == 20)
  {
  }

  /**
   * The data URL `toDataURL` returns: `data:<mime>;base64,<data>`, or
   * `data:,` for a canvas with no pixels or one the browser cannot
   * serialise. A run of `processPDF` never encodes a canvas with no pixels:
   * a page canvas with a zero side makes `drawImage` throw first, and pages
   * with positive sides fill a canvas with positive sides
   * (`Layout.PagesFillCanvas`). A canvas past the browser's limits does
   * reach the encoder, and gives `data:,`.
   */
  function DataUrl(c: Composite, mime: string, quality: real, encode: Encoder): string {
    if c.width == 0 || c.height == 0 then "data:,"
    else match encode(c, mime, quality)
      case None => "data:,"
      case Some(data) => "data:" + mime + ";base64," + data
  }

  /** The status reported before rendering group `i` of `n`. */
  function RenderingStatus(i: nat, n: nat): Status
    requires n > 0
  {
    Status(Rendering, (i as real / n as real) * 50.0,
           Some("Processing group " + NatToString(i + 1) + "/" + NatToString(n)))
  }

  /** The status reported before stitching group `i` of `n`. */
  function StitchingStatus(i: nat, n: nat): Status
    requires n > 0
  {
    Status(Stitching, 50.0 + (i as real / n as real) * 40.0,
           Some("Stitching group " + NatToString(i + 1) + "/" + NatToString(n)))
  }

  function DoneStatus(): Status {
    Status(Done, 100.0, None)
  }

  function ErrorStatus(message: string): Status {
    Status(Error, 0.0, Some(message))
  }

  /** The two reports made for group `i` of `n` when its pages render. */
  function GroupReports(i: nat, n: nat): seq<Status>
    requires i < n
  {
    [RenderingStatus(i, n), StitchingStatus(i, n)]
  }

  /** The reports for groups 0..m-1 of `n`: rendering then stitching, group by group. */
  function ProgressLog(n: nat, m: nat): (log: seq<Status>)
    requires m <= n
    ensures |log| == 2 * m
  {
    if m == 0 then [] else ProgressLog(n, m - 1) + GroupReports(m - 1, n)
  }

  /** Report 2i of the log is the rendering of group i, report 2i + 1 its stitching. */
  lemma {:induction false} ProgressLogAt(n: nat, m: nat, i: nat)
    requires i < m <= n
    ensures ProgressLog(n, m)[2 * i] == RenderingStatus(i, n)
    ensures ProgressLog(n, m)[2 * i + 1] == StitchingStatus(i, n)
  {
    if i < m - 1 {
      ProgressLogAt(n, m - 1, i);
    }
  }

  /** A fraction i/n of a group count, for i < n, lies in [0, 1). */
  lemma FractionBelowOne(i: nat, n: nat)
    requires i < n
    ensures 0.0 <= i as real / n as real < 1.0
  {
    assert (i as real / n as real) * n as real == i as real;
  }

  /**
   * Progress while group i of n is processed, the last group included:
   * rendering reports within [0, 50), stitching within [50, 90), so both
   * stay below the 100 of done; stitching reports more than rendering.
   */
  lemma ProgressRange(i: nat, n: nat)
    requires i < n
    ensures 0.0 <= RenderingStatus(i, n).progress < 50.0
    ensures 50.0 <= StitchingStatus(i, n).progress < 90.0
    ensures RenderingStatus(i, n).progress < StitchingStatus(i, n).progress
  {
    FractionBelowOne(i, n);
  }

  /** A larger share of the same group count is a larger fraction. */
  lemma FractionMono(i: nat, j: nat, n: nat)
    requires i < j && n > 0
    ensures i as real / n as real < j as real / n as real
  {
    var d := j as real / n as real - i as real / n as real;
    assert d * n as real == (j - i) as real;
  }

  /** Each kind of report advances from group to group. */
  lemma ProgressAdvances(i: nat, j: nat, n: nat)
    requires i < j < n
    ensures RenderingStatus(i, n).progress < RenderingStatus(j, n).progress
    ensures StitchingStatus(i, n).progress < StitchingStatus(j, n).progress
  {
    FractionMono(i, j, n);
  }

  /**
   * The reported progress is not monotone: after group i is stitched, the
   * rendering of group i + 1 reports less (for three groups: 63.3... for
   * stitching the second, then 33.3... for rendering the third).
   */
  lemma ProgressRegressesBetweenGroups(i: nat, n: nat)
    requires i + 1 < n
    ensures RenderingStatus(i + 1, n).progress < StitchingStatus(i, n).progress
  {
    var a, b := (i + 1) as real / n as real, i as real / n as real;
    FractionBelowOne(i + 1, n);
    FractionBelowOne(i, n);
    assert RenderingStatus(i + 1, n).progress == a * 50.0 < 50.0;
    assert StitchingStatus(i, n).progress == 50.0 + b * 40.0 >= 50.0;
  }

  /** The first page of `pages`, in order, that the renderer fails on, if any. */
  function PageFailure(render: Renderer, scale: real, pages: seq<int>): (r: Option<int>)
    ensures r.None? <==> forall k :: 0 <= k < |pages| ==> render(pages[k], scale).Ok?
    ensures r.Some? ==> exists k :: 0 <= k < |pages| && pages[k] == r.value && render(pages[k], scale).Err?
                                    && forall m :: 0 <= m < k ==> render(pages[m], scale).Ok?
  {
    if pages == [] then None
    else
      var init := pages[..|pages| - 1];
      var last := pages[|pages| - 1];
      assert forall k :: 0 <= k < |init| ==> init[k] == pages[k];
      match PageFailure(render, scale, init)
      case Some(p) => Some(p)
      case None => if render(last, scale).Err? then Some(last) else None
  }

  /** The first failing page of the groups taken in order. */
  function GroupFailure(render: Renderer, scale: real, groups: seq<seq<int>>): (r: Option<int>)
    ensures r.Some? ==> render(r.value, scale).Err?
  {
    if groups == [] then None
    else match GroupFailure(render, scale, groups[..|groups| - 1])
      case Some(p) => Some(p)
      case None => PageFailure(render, scale, groups[|groups| - 1])
  }

  /** Every page of every group renders. */
  predicate AllRender(render: Renderer, scale: real, groups: seq<seq<int>>) {
    forall g, k :: 0 <= g < |groups| && 0 <= k < |groups[g]| ==> render(groups[g][k], scale).Ok?
  }

  /** Every group holds a page. */
  predicate NonEmpty(groups: seq<seq<int>>) {
    forall g :: 0 <= g < |groups| ==> |groups[g]| > 0
  }

  /** No group fails exactly when every page of every group renders. */
  lemma {:induction false} NoGroupFailure(render: Renderer, scale: real, groups: seq<seq<int>>)
    ensures GroupFailure(render, scale, groups).None? <==> AllRender(render, scale, groups)
  {
    if groups != [] {
      var init := groups[..|groups| - 1];
      NoGroupFailure(render, scale, init);
      assert forall g :: 0 <= g < |init| ==> init[g] == groups[g];
    }
  }

  /** The first failure of the first `i` groups is, once found, the first failure of them all. */
  lemma {:induction false} FailureKept(render: Renderer, scale: real, groups: seq<seq<int>>, i: nat)
    requires i <= |groups|
    requires GroupFailure(render, scale, groups[..i]).Some?
    ensures GroupFailure(render, scale, groups) == GroupFailure(render, scale, groups[..i])
  {
    if i < |groups| {
      assert groups[..|groups| - 1][..i] == groups[..i];
      FailureKept(render, scale, groups[..|groups| - 1], i);
    } else {
      assert groups[..i] == groups;
    }
  }

  /** Looking for the first failure in `a + b`: `a`'s first failure, else `b`'s. */
  lemma {:induction false} PageFailureAppend(render: Renderer, scale: real, a: seq<int>, b: seq<int>)
    ensures PageFailure(render, scale, a + b)
            == match PageFailure(render, scale, a)
               case Some(p) => Some(p)
               case None => PageFailure(render, scale, b)
    decreases |b|
  {
    if b == [] {
      assert a + b == a;
    } else {
      var b' := b[..|b| - 1];
      assert (a + b)[..|a + b| - 1] == a + b';
      PageFailureAppend(render, scale, a, b');
    }
  }

  /** Group by group, the first failure is the first failing page of the groups laid end to end. */
  lemma {:induction false} GroupFailureIsPageFailure(render: Renderer, scale: real, groups: seq<seq<int>>)
    ensures GroupFailure(render, scale, groups) == PageFailure(render, scale, Partition.Concat(groups))
  {
    if groups != [] {
      var init := groups[..|groups| - 1];
      GroupFailureIsPageFailure(render, scale, init);
      PageFailureAppend(render, scale, Partition.Concat(init), groups[|groups| - 1]);
    }
  }

  /**
   * Since the groups hold pages 1..totalPages in order, the page a run stops
   * at is the lowest-numbered page the renderer fails on; and when there is
   * none, every page of the document renders.
   */
  lemma FailureIsLowestFailingPage(totalPages: nat, splitCount: nat, render: Renderer, scale: real)
    requires splitCount > 0
    ensures var r := GroupFailure(render, scale, Partition.Groups(totalPages, splitCount));
            && (r.None? <==> forall p :: 1 <= p <= totalPages ==> render(p, scale).Ok?)
            && (r.Some? ==> && 1 <= r.value <= totalPages && render(r.value, scale).Err?
                            && forall p :: 1 <= p < r.value ==> render(p, scale).Ok?)
  {
    Partition.GroupsCoverPages(totalPages, splitCount);
    GroupFailureIsPageFailure(render, scale, Partition.Groups(totalPages, splitCount));
    RangeFailure(render, scale, totalPages);
  }

  /** The first failing page of 1..totalPages is the lowest-numbered one. */
  lemma RangeFailure(render: Renderer, scale: real, totalPages: nat)
    ensures var r := PageFailure(render, scale, Partition.Range(1, totalPages + 1));
            && (r.None? <==> forall p :: 1 <= p <= totalPages ==> render(p, scale).Ok?)
            && (r.Some? ==> && 1 <= r.value <= totalPages && render(r.value, scale).Err?
                            && forall p :: 1 <= p < r.value ==> render(p, scale).Ok?)
  {
    var pages := Partition.Range(1, totalPages + 1);
    var r := PageFailure(render, scale, pages);
    if r.None? {
      forall p | 1 <= p <= totalPages
        ensures render(p, scale).Ok?
      {
        assert pages[p - 1] == p;
      }
    } else {
      var k :| 0 <= k < |pages| && pages[k] == r.value && render(pages[k], scale).Err?
               && forall m :: 0 <= m < k ==> render(pages[m], scale).Ok?;
      forall p | 1 <= p < r.value
        ensures render(p, scale).Ok?
      {
        assert pages[p - 1] == p;
      }
    }
  }

  /** The canvases of a group's pages, all of which render. */
  function RenderedPages(render: Renderer, scale: real, group: seq<int>): (dims: seq<Dim>)
    requires forall k :: 0 <= k < |group| ==> render(group[k], scale).Ok?
    ensures |dims| == |group|
    ensures forall k :: 0 <= k < |group| ==> render(group[k], scale) == Ok(dims[k])
  {
    seq(|group|, k requires 0 <= k < |group| => render(group[k], scale).value)
  }

  /** The data URL produced for a group whose pages all render. */
  function GroupImage(config: StitchConfig, group: seq<int>, render: Renderer, encode: Encoder): string
    requires |group| > 0
    requires forall k :: 0 <= k < |group| ==> render(group[k], RenderScale(config.quality)).Ok?
  {
    StitchedImage(config, RenderedPages(render, RenderScale(config.quality), group), encode)
  }

  /** One image per group, in group order. */
  function GroupImages(config: StitchConfig, groups: seq<seq<int>>, render: Renderer, encode: Encoder): (images: seq<string>)
    requires NonEmpty(groups)
    requires AllRender(render, RenderScale(config.quality), groups)
    ensures |images| == |groups|
  {
    if groups == [] then []
    else
      var init := groups[..|groups| - 1];
      assert forall g :: 0 <= g < |init| ==> init[g] == groups[g];
      GroupImages(config, init, render, encode) + [GroupImage(config, groups[|groups| - 1], render, encode)]
  }

  /** Image `g` of the list is the image of group `g`. */
  lemma {:induction false} GroupImagesAt(config: StitchConfig, groups: seq<seq<int>>, render: Renderer, encode: Encoder, g: nat)
    requires NonEmpty(groups)
    requires AllRender(render, RenderScale(config.quality), groups)
    requires g < |groups|
    ensures GroupImages(config, groups, render, encode)[g] == GroupImage(config, groups[g], render, encode)
  {
    if g < |groups| - 1 {
      var init := groups[..|groups| - 1];
      assert forall j :: 0 <= j < |init| ==> init[j] == groups[j];
      GroupImagesAt(config, init, render, encode, g);
    }
  }

  /**
   * What a run of `processPDF` over the partition `groups` returns and
   * reports. When every page renders: one image per group, in group order,
   * and the reports rendering/stitching for each group followed by done.
   * Otherwise the error of the first page that fails, no images, and the
   * reports up to the rendering of the group holding that page (the first
   * group with a failing page) followed by the error.
   */
  predicate Reported(config: StitchConfig, groups: seq<seq<int>>, render: Renderer, encode: Encoder,
                     outcome: Result<seq<string>, string>, statuses: seq<Status>)
  {
    var n := |groups|;
    var scale := RenderScale(config.quality);
    match GroupFailure(render, scale, groups)
    case None =>
      && NonEmpty(groups)
      && AllRender(render, scale, groups)
      && outcome == Ok(GroupImages(config, groups, render, encode))
      && statuses == ProgressLog(n, n) + [DoneStatus()]
    case Some(page) =>
      && outcome == Err(render(page, scale).error)
      && exists g :: 0 <= g < n
           && GroupFailure(render, scale, groups[..g]).None?
           && page in groups[g]
           && statuses == ProgressLog(n, g) + [RenderingStatus(g, n), ErrorStatus(outcome.error)]
  }

  /**
   * `processPDF`: partition the pages, then for each group in order report
   * rendering, render its pages, report stitching, stitch them and keep the
   * encoded image; finally report done. A page the renderer fails on ends
   * the run: an error status with the error's text is reported and the
   * error is passed on instead of any images.
   */
  method ProcessPdf(totalPages: nat, config: StitchConfig, render: Renderer, encode: Encoder)
    returns (outcome: Result<seq<string>, string>, statuses: seq<Status>)
    ensures Reported(config, Partition.Groups(totalPages, config.splitCount), render, encode, outcome, statuses)
  {
    var groups := Partition.PartitionPages(totalPages, config.splitCount);
    outcome, statuses := ProcessGroups(groups, config, render, encode);
  }

  /**
   * The group loop of `processPDF`, over the partition it computed: for each
   * group report rendering, render, report stitching, stitch and encode.
   */
  method ProcessGroups(groups: seq<seq<int>>, config: StitchConfig, render: Renderer, encode: Encoder)
    returns (outcome: Result<seq<string>, string>, statuses: seq<Status>)
    requires NonEmpty(groups)
    ensures Reported(config, groups, render, encode, outcome, statuses)
  {
    var results: seq<string> := [];
    statuses := [];
    while |results| < |groups|
      invariant |results| <= |groups|
      invariant Kept(config, groups, render, encode, results)
      invariant statuses == ProgressLog(|groups|, |results|)
    {
      var i := |results|;
      var reports, image := ProcessGroup(groups[i], i, |groups|, config, render, encode);
      statuses := statuses + reports;
      if image.Err? {
        outcome := Err(image.error);
        statuses := statuses + [ErrorStatus(image.error)];
        RunFailed(config, groups, render, encode, i, outcome, statuses);
        return;
      }
      KeepImage(config, groups, render, encode, results, image.value);
      results := results + [image.value];
    }
    statuses := statuses + [Status(Done, 100.0, None)];
    outcome := Ok(results);
    RunSucceeded(config, groups, render, encode, results, statuses);
  }

  /**
   * One iteration of the group loop, for group `i` of `n`: report
   * rendering, render the pages, report stitching, stitch and encode. The
   * reports are returned in the order they are made; a failing page stops
   * the iteration after the first report.
   */
  method ProcessGroup(group: seq<int>, i: nat, n: nat, config: StitchConfig, render: Renderer, encode: Encoder)
    returns (reports: seq<Status>, image: Result<string, string>)
    requires i < n && |group| > 0
    ensures var scale := RenderScale(config.quality);
            PageFailure(render, scale, group).None? ==>
              && reports == GroupReports(i, n)
              && image == Ok(StitchedImage(config, RenderedPages(render, scale, group), encode))
    ensures var scale := RenderScale(config.quality);
            PageFailure(render, scale, group).Some? ==>
              && reports == [RenderingStatus(i, n)]
              && image == Err(render(PageFailure(render, scale, group).value, scale).error)
  {
    reports := [RenderingStatus(i, n)];
    var rendered := RenderGroup(group, render, RenderScale(config.quality));
    if rendered.Err? {
      return reports, Err(rendered.error);
    }
    var pageCanvases := rendered.value;
    reports := reports + [StitchingStatus(i, n)];
    assert reports == GroupReports(i, n);
    var dataUrl := StitchGroup(config, pageCanvases, encode);
    image := Ok(dataUrl);
  }

  /** The encoded image of a group's canvases stitched together. */
  function StitchedImage(config: StitchConfig, pages: seq<Dim>, encode: Encoder): string
    requires |pages| > 0
  {
    DataUrl(Layout.Layout(config.direction, pages, GapSize(config), config.border, BorderWidth(config.quality)),
            Mime(config.quality), EncoderQuality(config.quality), encode)
  }

  /**
   * The stitching half of a group's iteration: the canvases are stitched
   * with the configured direction, gap and border, and the result encoded
   * in the configured format.
   */
  method StitchGroup(config: StitchConfig, pageCanvases: seq<Dim>, encode: Encoder) returns (dataUrl: string)
    requires |pageCanvases| > 0
    ensures dataUrl == StitchedImage(config, pageCanvases, encode)
  {
    var format := Mime(config.quality);
    var qualityParam := EncoderQuality(config.quality);
    var gapSize := GapSize(config);
    var stitched := Stitch(config.direction, pageCanvases, gapSize, config.border, BorderWidth(config.quality));
    dataUrl := DataUrl(stitched, format, qualityParam, encode);
  }

  /**
   * The page loop of one group: render each page in order, stopping at the
   * first failure with its error.
   */
  method RenderGroup(groupPages: seq<int>, render: Renderer, scale: real) returns (rendered: Result<seq<Dim>, string>)
    ensures PageFailure(render, scale, groupPages).None? ==> rendered == Ok(RenderedPages(render, scale, groupPages))
    ensures PageFailure(render, scale, groupPages).Some? ==>
              rendered == Err(render(PageFailure(render, scale, groupPages).value, scale).error)
  {
    var pageCanvases: seq<Dim> := [];
    var k := 0;
    while k < |groupPages|
      invariant 0 <= k <= |groupPages|
      invariant PageFailure(render, scale, groupPages[..k]).None?
      invariant pageCanvases == RenderedPages(render, scale, groupPages[..k])
    {
      var pageNum := groupPages[k];
      var canvas := render(pageNum, scale);
      assert groupPages[..k + 1][..k] == groupPages[..k];
      if canvas.Err? {
        PageFailureExtends(render, scale, groupPages, k + 1);
        return Err(canvas.error);
      }
      pageCanvases := pageCanvases + [canvas.value];
      k := k + 1;
    }
    assert groupPages[..k] == groupPages;
    rendered := Ok(pageCanvases);
  }

  /** A failure found in a prefix of the pages is the first failure of them all. */
  lemma {:induction false} PageFailureExtends(render: Renderer, scale: real, pages: seq<int>, i: nat)
    requires i <= |pages|
    requires PageFailure(render, scale, pages[..i]).Some?
    ensures PageFailure(render, scale, pages) == PageFailure(render, scale, pages[..i])
  {
    if i < |pages| {
      assert pages[..|pages| - 1][..i] == pages[..i];
      PageFailureExtends(render, scale, pages[..|pages| - 1], i);
    } else {
      assert pages[..i] == pages;
    }
  }

  /** `results` holds the images of the first |results| groups, all of whose pages render. */
  predicate Kept(config: StitchConfig, groups: seq<seq<int>>, render: Renderer, encode: Encoder, results: seq<string>)
    requires |results| <= |groups|
  {
    var done := groups[..|results|];
    && NonEmpty(done)
    && AllRender(render, RenderScale(config.quality), done)
    && results == GroupImages(config, done, render, encode)
  }

  /** Keeping the image stitched from group `i`'s rendered pages extends what was kept. */
  lemma KeepImage(config: StitchConfig, groups: seq<seq<int>>, render: Renderer, encode: Encoder,
                  results: seq<string>, dataUrl: string)
    requires |results| < |groups| && NonEmpty(groups)
    requires Kept(config, groups, render, encode, results)
    requires PageFailure(render, RenderScale(config.quality), groups[|results|]).None?
    requires dataUrl == StitchedImage(config, RenderedPages(render, RenderScale(config.quality), groups[|results|]), encode)
    ensures Kept(config, groups, render, encode, results + [dataUrl])
  {
    var i := |results|;
    var done, next := groups[..i], groups[..i + 1];
    assert forall g :: 0 <= g < i ==> next[g] == done[g];
    var scale := RenderScale(config.quality);
    assert forall k :: 0 <= k < |groups[i]| ==> render(groups[i][k], scale).Ok?;
    assert AllRender(render, scale, next);
    ImagesStep(config, groups, render, encode, i);
    assert dataUrl == GroupImage(config, groups[i], render, encode);
  }

  /** The images of the first i + 1 groups are those of the first i, then group i's. */
  lemma ImagesStep(config: StitchConfig, groups: seq<seq<int>>, render: Renderer, encode: Encoder, i: nat)
    requires i < |groups| && NonEmpty(groups)
    requires AllRender(render, RenderScale(config.quality), groups[..i + 1])
    ensures NonEmpty(groups[..i]) && NonEmpty(groups[..i + 1])
    ensures AllRender(render, RenderScale(config.quality), groups[..i])
    ensures GroupImages(config, groups[..i + 1], render, encode)
         == GroupImages(config, groups[..i], render, encode) + [GroupImage(config, groups[i], render, encode)]
  {
    var next := groups[..i + 1];
    assert next[..i] == groups[..i] && next[i] == groups[i];
  }

  /** Once every group is done, the run returns and reports what `Reported` describes. */
  lemma RunSucceeded(config: StitchConfig, groups: seq<seq<int>>, render: Renderer, encode: Encoder,
                     results: seq<string>, statuses: seq<Status>)
    requires |results| == |groups|
    requires Kept(config, groups, render, encode, results)
    requires statuses == ProgressLog(|groups|, |groups|) + [DoneStatus()]
    ensures Reported(config, groups, render, encode, Ok(results), statuses)
  {
    assert groups[..|groups|] == groups;
    NoGroupFailure(render, RenderScale(config.quality), groups);
  }

  /** When the groups before `i` all render and group `i` fails, the run fails on group `i`'s first failing page. */
  lemma {:induction false} FailureAt(render: Renderer, scale: real, groups: seq<seq<int>>, i: nat)
    requires i < |groups|
    requires AllRender(render, scale, groups[..i])
    requires PageFailure(render, scale, groups[i]).Some?
    ensures GroupFailure(render, scale, groups[..i]).None?
    ensures GroupFailure(render, scale, groups) == PageFailure(render, scale, groups[i])
  {
    NoGroupFailure(render, scale, groups[..i]);
    assert groups[..i + 1][..i] == groups[..i];
    FailureKept(render, scale, groups, i + 1);
  }

  /** A failing group ends the run with the outcome and reports `Reported` describes. */
  lemma RunFailed(config: StitchConfig, groups: seq<seq<int>>, render: Renderer, encode: Encoder, i: nat,
                  outcome: Result<seq<string>, string>, statuses: seq<Status>)
    requires i < |groups|
    requires AllRender(render, RenderScale(config.quality), groups[..i])
    requires var scale := RenderScale(config.quality);
             && PageFailure(render, scale, groups[i]).Some?
             && outcome == Err(render(PageFailure(render, scale, groups[i]).value, scale).error)
             && statuses == ProgressLog(|groups|, i) + [RenderingStatus(i, |groups|)] + [ErrorStatus(outcome.error)]
    ensures Reported(config, groups, render, encode, outcome, statuses)
  {
    var scale := RenderScale(config.quality);
    FailureAt(render, scale, groups, i);
    assert PageFailure(render, scale, groups[i]).value in groups[i];
    var log, n := ProgressLog(|groups|, i), |groups|;
    assert statuses == log + [RenderingStatus(i, n), ErrorStatus(outcome.error)];
  }
}
