/**
 * `extract_charts_with_captions` once the page is fetched and parsed: a figure
 * pass, then an image pass, each appending `{image_url, caption}` records.
 * The base URL is `url`; `resolve` stands for `urljoin`, reference resolution
 * as section 5.2 of RFC 3986 describes it, left uninterpreted.
 */
module Extraction {
  import opened Html
  import opened Strings

  /** One output record: exactly the two keys `image_url` and `caption`. */
  datatype Chart = Chart(imageUrl: string, caption: string)

  /** The element a record is produced for: a `<figure>` or an `<img>`. */
  datatype Origin = FromFigure(index: nat) | FromImage(index: nat)

  /**
   * The paragraph fallback: the text of the nearest preceding `<p>` unless that
   * is empty or missing, then the text of the nearest following `<p>`, else "".
   */
  function ParagraphCaption(doc: Document, i: nat): string
    requires i < |doc|
  {
    var prev := FindPrevious(doc, i, P);
    var next := FindNext(doc, i, P);
    var before := if prev.Some? then doc[prev.value].text else "";
    if before != "" then before
    else if next.Some? then doc[next.value].text
    else ""
  }

  /** The caption of a figure: its first `<figcaption>`'s text, even when empty, else the paragraph fallback. */
  function FigureCaption(doc: Document, i: nat): string
    requires WellFormed(doc) && i < |doc|
  {
    var capTag := Find(doc, i, Figcaption);
    if capTag.Some? then doc[capTag.value].text else ParagraphCaption(doc, i)
  }

  /** The caption of a standalone image: its stripped `alt` when `alt` is truthy, else the paragraph fallback. */
  function ImageCaption(doc: Document, j: nat): string
    requires j < |doc|
  {
    if HasValue(doc[j], "alt") then Strip(doc[j].attrs["alt"]) else ParagraphCaption(doc, j)
  }

  /** A `<figure>` whose first descendant `<img>` has a truthy `src`. */
  predicate FigureQualifies(doc: Document, i: nat)
    requires WellFormed(doc)
  {
    i < |doc| && doc[i].tag == Figure &&
    var img := Find(doc, i, Img);
    img.Some? && HasValue(doc[img.value], "src")
  }

  /** An `<img>` with a truthy `src`. */
  predicate ImageQualifies(doc: Document, j: nat) {
    j < |doc| && doc[j].tag == Img && HasValue(doc[j], "src")
  }

  predicate Qualifies(doc: Document, o: Origin) {
    match o
    case FromFigure(i) => WellFormed(doc) && FigureQualifies(doc, i)
    case FromImage(j) => ImageQualifies(doc, j)
  }

  /** The record produced for a qualifying figure or image. */
  function Record(doc: Document, url: string, resolve: (string, string) -> string, o: Origin): Chart
    requires Qualifies(doc, o)
  {
    match o
    case FromFigure(i) =>
      var img := Find(doc, i, Img).value;
      Chart(resolve(url, doc[img].attrs["src"]), FigureCaption(doc, i))
    case FromImage(j) =>
      Chart(resolve(url, doc[j].attrs["src"]), ImageCaption(doc, j))
  }

  /** The records the figure pass appends, in order, for the figures `figs`. */
  function FigureRecords(doc: Document, url: string, resolve: (string, string) -> string, figs: seq<nat>): seq<Chart>
    requires WellFormed(doc)
  {
    if figs == [] then []
    else
      var i := figs[|figs| - 1];
      FigureRecords(doc, url, resolve, figs[..|figs| - 1]) +
      (if FigureQualifies(doc, i) then [Record(doc, url, resolve, FromFigure(i))] else [])
  }

  /** The records the image pass appends, in order, for the images `imgs`. */
  function ImageRecords(doc: Document, url: string, resolve: (string, string) -> string, imgs: seq<nat>): seq<Chart>
  {
    if imgs == [] then []
    else
      var j := imgs[|imgs| - 1];
      ImageRecords(doc, url, resolve, imgs[..|imgs| - 1]) +
      (if ImageQualifies(doc, j) then [Record(doc, url, resolve, FromImage(j))] else [])
  }

  /** Everything the extractor returns for a page: the figure records, then the image records. */
  function Charts(doc: Document, url: string, resolve: (string, string) -> string): seq<Chart>
    requires WellFormed(doc)
  {
    FigureRecords(doc, url, resolve, FindAll(doc, Figure)) + ImageRecords(doc, url, resolve, FindAll(doc, Img))
  }

  /**
   * The paragraph fallback as both loops run it: `caption` is the preceding
   * paragraph's text, replaced by the following one's when it is empty.
   */
  method ParagraphFallback(doc: Document, i: nat) returns (caption: string)
    requires i < |doc|
    ensures caption == ParagraphCaption(doc, i)
  {
    var prevText := FindPrevious(doc, i, P);
    var nextText := FindNext(doc, i, P);
    caption := if prevText.Some? then doc[prevText.value].text else "";
    if caption == "" {
      caption := if nextText.Some? then doc[nextText.value].text else "";
    }
  }

  /**
   * One iteration of the figure loop: the record for `<figure>` `fig`, or
   * nothing when its first `<img>` is missing or has no truthy `src`.
   */
  method FigureChart(doc: Document, url: string, resolve: (string, string) -> string, fig: nat)
    returns (chart: Option<Chart>)
    requires WellFormed(doc) && fig < |doc| && doc[fig].tag == Figure
    ensures chart.Some? <==> FigureQualifies(doc, fig)
    ensures chart.Some? ==> chart.value == Record(doc, url, resolve, FromFigure(fig))
  {
    chart := None;
    var img := Find(doc, fig, Img);
    if img.Some? && HasValue(doc[img.value], "src") {
      var imgUrl := resolve(url, doc[img.value].attrs["src"]);
      var caption := "";
      var capTag := Find(doc, fig, Figcaption);
      if capTag.Some? {
        caption := doc[capTag.value].text;
      } else {
        caption := ParagraphFallback(doc, fig);
      }
      chart := Some(Chart(imgUrl, caption));
    }
  }

  /**
   * One iteration of the image loop: the record for `<img>` `img`, or nothing
   * when it has no truthy `src`.
   */
  method ImageChart(doc: Document, url: string, resolve: (string, string) -> string, img: nat)
    returns (chart: Option<Chart>)
    requires img < |doc| && doc[img].tag == Img
    ensures chart.Some? <==> ImageQualifies(doc, img)
    ensures chart.Some? ==> chart.value == Record(doc, url, resolve, FromImage(img))
  {
    chart := None;
    if HasValue(doc[img], "src") {
      var imgUrl := resolve(url, doc[img].attrs["src"]);
      var caption := "";
      if HasValue(doc[img], "alt") {
        caption := Strip(doc[img].attrs["alt"]);
      } else {
        caption := ParagraphFallback(doc, img);
      }
      chart := Some(Chart(imgUrl, caption));
    }
  }

  /** One turn of the figure loop appends what `FigureChart` returns for the next figure. */
  lemma FigureRecordsStep(doc: Document, url: string, resolve: (string, string) -> string, figs: seq<nat>, k: nat, chart: Option<Chart>)
    requires WellFormed(doc) && k < |figs|
    requires chart.Some? <==> FigureQualifies(doc, figs[k])
    requires chart.Some? ==> chart.value == Record(doc, url, resolve, FromFigure(figs[k]))
    ensures FigureRecords(doc, url, resolve, figs[..k + 1]) ==
            FigureRecords(doc, url, resolve, figs[..k]) + (if chart.Some? then [chart.value] else [])
  {
    assert figs[..k + 1][..k] == figs[..k];
  }

  /** One turn of the image loop appends what `ImageChart` returns for the next image to `charts0` and the records before it. */
  lemma ImageRecordsStep(doc: Document, url: string, resolve: (string, string) -> string, charts0: seq<Chart>, imgs: seq<nat>, k: nat, chart: Option<Chart>)
    requires k < |imgs|
    requires chart.Some? <==> ImageQualifies(doc, imgs[k])
    requires chart.Some? ==> chart.value == Record(doc, url, resolve, FromImage(imgs[k]))
    ensures charts0 + ImageRecords(doc, url, resolve, imgs[..k + 1]) ==
            charts0 + ImageRecords(doc, url, resolve, imgs[..k]) + (if chart.Some? then [chart.value] else [])
  {
    assert imgs[..k + 1][..k] == imgs[..k];
  }

  /** The figure loop: one record per qualifying `<figure>`, in document order. */
  method FigurePass(doc: Document, url: string, resolve: (string, string) -> string)
    returns (charts: seq<Chart>)
    requires WellFormed(doc)
    ensures charts == FigureRecords(doc, url, resolve, FindAll(doc, Figure))
  {
    charts := [];
    var figures := FindAll(doc, Figure);
    for k := 0 to |figures|
      invariant charts == FigureRecords(doc, url, resolve, figures[..k])
    {
      var chart := FigureChart(doc, url, resolve, figures[k]);
      FigureRecordsStep(doc, url, resolve, figures, k, chart);
      if chart.Some? {
        charts := charts + [chart.value];
      }
    }
    assert figures[..|figures|] == figures;
  }

  /** The image loop: appends to `charts` one record per `<img>` with a truthy `src`, in document order. */
  method ImagePass(doc: Document, url: string, resolve: (string, string) -> string, charts0: seq<Chart>)
    returns (charts: seq<Chart>)
    ensures charts == charts0 + ImageRecords(doc, url, resolve, FindAll(doc, Img))
  {
    charts := charts0;
    var images := FindAll(doc, Img);
    for k := 0 to |images|
      invariant charts == charts0 + ImageRecords(doc, url, resolve, images[..k])
    {
      var chart := ImageChart(doc, url, resolve, images[k]);
      ImageRecordsStep(doc, url, resolve, charts0, images, k, chart);
      if chart.Some? {
        charts := charts + [chart.value];
      }
    }
    assert images[..|images|] == images;
  }

  /**
   * The extractor: `charts` grows by one record per qualifying `<figure>`, then
   * by one per `<img>` with a truthy `src`, each loop running over `find_all`
   * in document order.
   */
  method ExtractChartsWithCaptions(doc: Document, url: string, resolve: (string, string) -> string)
    returns (charts: seq<Chart>)
    requires WellFormed(doc)
    ensures charts == Charts(doc, url, resolve)
  {
    charts := FigurePass(doc, url, resolve);
    charts := ImagePass(doc, url, resolve, charts);
  }
}
