/**
 * What the extractor promises about its output, stated over the page rather
 * than over the two loops: which elements yield a record, in which order, how
 * many records there are, where each `image_url` comes from and how each
 * caption is chosen.
 */
module Properties {
  import opened Html
  import opened Strings
  import opened Extraction

  /** The entries of `s` that satisfy `keep`, in the order of `s`. */
  function Keep(s: seq<nat>, keep: nat -> bool): seq<nat> {
    if s == [] then []
    else
      var x := s[|s| - 1];
      Keep(s[..|s| - 1], keep) + (if keep(x) then [x] else [])
  }

  /** Whether the figure at an index yields a record. */
  function FigureTest(doc: Document): nat -> bool {
    (i: nat) => Qualifies(doc, FromFigure(i))
  }

  /** Whether the image at an index yields a record. */
  function ImageTest(doc: Document): nat -> bool {
    (j: nat) => Qualifies(doc, FromImage(j))
  }

  /** The `<figure>` elements that yield a record, in document order. */
  function QualifyingFigures(doc: Document): seq<nat>
    requires WellFormed(doc)
  {
    Keep(FindAll(doc, Figure), FigureTest(doc))
  }

  /** The `<img>` elements that yield a standalone record, in document order. */
  function QualifyingImages(doc: Document): seq<nat>
  {
    Keep(FindAll(doc, Img), ImageTest(doc))
  }

  /** The element the `m`-th record is produced for. */
  function OriginAt(doc: Document, m: nat): Origin
    requires WellFormed(doc) && m < |QualifyingFigures(doc)| + |QualifyingImages(doc)|
  {
    var figures := QualifyingFigures(doc);
    if m < |figures| then FromFigure(figures[m]) else FromImage(QualifyingImages(doc)[m - |figures|])
  }

  /** Output order: every figure record before every image record, each group in document order. */
  predicate Precedes(a: Origin, b: Origin) {
    (a.FromFigure? && b.FromImage?) || (a.FromFigure? == b.FromFigure? && a.index < b.index)
  }

  /** The `m`-th figure record is the record of the `m`-th kept figure. */
  lemma {:induction false} FigureRecordsFollow(doc: Document, url: string, resolve: (string, string) -> string, figs: seq<nat>)
    requires WellFormed(doc)
    ensures var records := FigureRecords(doc, url, resolve, figs);
            var kept := Keep(figs, FigureTest(doc));
            |records| == |kept| &&
            forall m :: 0 <= m < |kept| ==>
              FigureQualifies(doc, kept[m]) && records[m] == Record(doc, url, resolve, FromFigure(kept[m]))
    decreases |figs|
  {
    if figs != [] {
      FigureRecordsFollow(doc, url, resolve, figs[..|figs| - 1]);
    }
  }

  /** The `m`-th image record is the record of the `m`-th kept image. */
  lemma {:induction false} ImageRecordsFollow(doc: Document, url: string, resolve: (string, string) -> string, imgs: seq<nat>)
    requires WellFormed(doc)
    ensures var records := ImageRecords(doc, url, resolve, imgs);
            var kept := Keep(imgs, ImageTest(doc));
            |records| == |kept| &&
            forall m :: 0 <= m < |kept| ==>
              ImageQualifies(doc, kept[m]) && records[m] == Record(doc, url, resolve, FromImage(kept[m]))
    decreases |imgs|
  {
    if imgs != [] {
      ImageRecordsFollow(doc, url, resolve, imgs[..|imgs| - 1]);
    }
  }

  /**
   * The output is one record per qualifying figure followed by one per
   * qualifying image: the `m`-th record is the record of `OriginAt(doc, m)`.
   */
  lemma ChartsLayout(doc: Document, url: string, resolve: (string, string) -> string)
    requires WellFormed(doc)
    ensures var charts := Charts(doc, url, resolve);
            |charts| == |QualifyingFigures(doc)| + |QualifyingImages(doc)| &&
            forall m :: 0 <= m < |charts| ==>
              Qualifies(doc, OriginAt(doc, m)) && charts[m] == Record(doc, url, resolve, OriginAt(doc, m))
  {
    FigureRecordsFollow(doc, url, resolve, FindAll(doc, Figure));
    ImageRecordsFollow(doc, url, resolve, FindAll(doc, Img));
  }

  /** Keeping drops exactly the entries that fail the test. */
  lemma {:induction false} KeepMembers(s: seq<nat>, keep: nat -> bool)
    ensures forall x: nat :: x in Keep(s, keep) <==> x in s && keep(x)
    decreases |s|
  {
    if s != [] {
      var init, last := s[..|s| - 1], s[|s| - 1];
      KeepMembers(init, keep);
      assert s == init + [last];
    }
  }

  /** Keeping preserves the order of the entries it keeps. */
  lemma {:induction false} KeepIncreasing(s: seq<nat>, keep: nat -> bool)
    requires Increasing(s)
    ensures Increasing(Keep(s, keep))
    decreases |s|
  {
    if s != [] {
      var init, last := s[..|s| - 1], s[|s| - 1];
      assert Increasing(init);
      KeepIncreasing(init, keep);
      var keptInit := Keep(init, keep);
      if keep(last) {
        KeepMembers(init, keep);
        var kept := keptInit + [last];
        forall k, m | 0 <= k < m < |kept|
          ensures kept[k] < kept[m]
        {
          if m == |keptInit| {
            assert keptInit[k] in init;
            var n :| 0 <= n < |init| && init[n] == keptInit[k];
            assert s[n] == init[n];
          }
        }
      }
    }
  }

  /** The figure records come from exactly the qualifying figures, each once, in document order. */
  lemma QualifyingFiguresSpec(doc: Document)
    requires WellFormed(doc)
    ensures var figures := QualifyingFigures(doc);
            Increasing(figures) &&
            forall i: nat :: i in figures <==> FigureQualifies(doc, i)
  {
    FindAllSpec(doc, Figure);
    KeepMembers(FindAll(doc, Figure), FigureTest(doc));
    KeepIncreasing(FindAll(doc, Figure), FigureTest(doc));
  }

  /** The image records come from exactly the `<img>` elements with a truthy `src`, each once, in document order. */
  lemma QualifyingImagesSpec(doc: Document)
    ensures var images := QualifyingImages(doc);
            Increasing(images) &&
            forall j: nat :: j in images <==> ImageQualifies(doc, j)
  {
    FindAllSpec(doc, Img);
    KeepMembers(FindAll(doc, Img), ImageTest(doc));
    KeepIncreasing(FindAll(doc, Img), ImageTest(doc));
  }

  /** Every figure record precedes every image record, and each group follows document order. */
  lemma OutputOrder(doc: Document)
    requires WellFormed(doc)
    ensures forall k, m :: 0 <= k < m < |QualifyingFigures(doc)| + |QualifyingImages(doc)| ==>
              Precedes(OriginAt(doc, k), OriginAt(doc, m))
  {
    QualifyingFiguresSpec(doc);
    QualifyingImagesSpec(doc);
  }

  /** The distinct entries of `s`. */
  function Elements(s: seq<nat>): set<nat> {
    set x | x in s
  }

  /** A strictly increasing sequence has as many entries as distinct elements. */
  lemma {:induction false} IncreasingCount(s: seq<nat>)
    requires Increasing(s)
    ensures |Elements(s)| == |s|
    decreases |s|
  {
    if s != [] {
      var init, last := s[..|s| - 1], s[|s| - 1];
      assert Increasing(init);
      IncreasingCount(init);
      assert last !in Elements(init) by {
        forall k | 0 <= k < |init|
          ensures init[k] != last
        {
          assert s[k] == init[k];
        }
      }
      assert s == init + [last];
      assert Elements(s) == Elements(init) + {last};
      assert Elements(init) !! {last};
    }
  }

  /**
   * The number of records is the number of qualifying figures plus the number
   * of `<img>` elements with a truthy `src`.
   */
  lemma RecordCount(doc: Document, url: string, resolve: (string, string) -> string)
    requires WellFormed(doc)
    ensures |Charts(doc, url, resolve)| ==
            |set i: nat | i < |doc| && FigureQualifies(doc, i)| + |set j: nat | j < |doc| && ImageQualifies(doc, j)|
  {
    ChartsLayout(doc, url, resolve);
    var figures := QualifyingFigures(doc);
    var images := QualifyingImages(doc);
    QualifyingFiguresSpec(doc);
    QualifyingImagesSpec(doc);
    IncreasingCount(figures);
    IncreasingCount(images);
    assert Elements(figures) == (set i: nat | i < |doc| && FigureQualifies(doc, i));
    assert Elements(images) == (set j: nat | j < |doc| && ImageQualifies(doc, j));
  }

  /**
   * A figure yields a record exactly when its first descendant `<img>` exists
   * and has a truthy `src`.
   */
  lemma FigureYieldsIff(doc: Document, i: nat)
    requires WellFormed(doc)
    ensures FigureQualifies(doc, i) <==>
            i < |doc| && doc[i].tag == Figure &&
            exists c: nat :: IsFirstDescendant(doc, i, Img, c) && HasValue(doc[c], "src")
  {
    if i < |doc| {
      FindSpec(doc, i, Img);
    }
  }

  /**
   * Only the first `<img>` is looked at: when it has no truthy `src` the figure
   * yields no record, whatever later images inside it carry.
   */
  lemma FirstImageDecides(doc: Document, i: nat, c: nat)
    requires WellFormed(doc)
    requires IsFirstDescendant(doc, i, Img, c) && !HasValue(doc[c], "src")
    ensures !FigureQualifies(doc, i) && i !in QualifyingFigures(doc)
  {
    FindSpec(doc, i, Img);
    QualifyingFiguresSpec(doc);
  }

  /** The `<img>` a record's URL is taken from. */
  function SourceImage(doc: Document, o: Origin): nat
    requires WellFormed(doc) && Qualifies(doc, o)
  {
    match o
    case FromFigure(i) => Find(doc, i, Img).value
    case FromImage(j) => j
  }

  /**
   * Every record's `image_url` is the base URL resolved against the `src` of an
   * `<img>` whose `src` is truthy: the figure's first `<img>`, or the image itself.
   */
  lemma RecordSource(doc: Document, url: string, resolve: (string, string) -> string, o: Origin)
    requires WellFormed(doc) && Qualifies(doc, o)
    ensures var c := SourceImage(doc, o);
            ImageQualifies(doc, c) &&
            Record(doc, url, resolve, o).imageUrl == resolve(url, doc[c].attrs["src"])
    ensures o.FromFigure? ==> IsFirstDescendant(doc, o.index, Img, SourceImage(doc, o))
    ensures o.FromImage? ==> SourceImage(doc, o) == o.index
  {
    if o.FromFigure? {
      FindSpec(doc, o.index, Img);
    }
  }

  /**
   * An `<img>` that makes its figure qualify is also picked up by the image
   * pass, so its URL is reported twice.
   */
  lemma ImageInFigureTwice(doc: Document, url: string, resolve: (string, string) -> string, i: nat, c: nat)
    requires WellFormed(doc) && FigureQualifies(doc, i) && IsFirstDescendant(doc, i, Img, c)
    ensures i in QualifyingFigures(doc) && c in QualifyingImages(doc)
    ensures ImageQualifies(doc, c) &&
            Record(doc, url, resolve, FromFigure(i)).imageUrl == Record(doc, url, resolve, FromImage(c)).imageUrl
  {
    FindSpec(doc, i, Img);
    QualifyingFiguresSpec(doc);
    QualifyingImagesSpec(doc);
  }

  /**
   * A figure with a `<figcaption>` takes that element's text, even when it is
   * empty; only a figure without one falls back to the paragraphs.
   */
  lemma FigureCaptionChoice(doc: Document, i: nat)
    requires WellFormed(doc) && i < |doc|
    ensures forall c: nat :: IsFirstDescendant(doc, i, Figcaption, c) ==> FigureCaption(doc, i) == doc[c].text
    ensures (forall k :: i < k <= doc[i].last ==> doc[k].tag != Figcaption) ==>
            FigureCaption(doc, i) == ParagraphCaption(doc, i)
  {
    FindSpec(doc, i, Figcaption);
  }

  /**
   * The paragraph fallback: the nearest earlier `<p>`'s text when that is not
   * empty, otherwise the nearest later `<p>`'s text, otherwise "".
   */
  lemma ParagraphCaptionChoice(doc: Document, i: nat)
    requires i < |doc|
    ensures forall b: nat :: IsNearestBefore(doc, i, P, b) && doc[b].text != "" ==>
              ParagraphCaption(doc, i) == doc[b].text
    ensures forall a: nat ::
              (IsNearestAfter(doc, i, P, a) && forall b: nat :: IsNearestBefore(doc, i, P, b) ==> doc[b].text == "") ==>
              ParagraphCaption(doc, i) == doc[a].text
    ensures (forall b: nat :: IsNearestBefore(doc, i, P, b) ==> doc[b].text == "") &&
            (forall a: nat :: !IsNearestAfter(doc, i, P, a)) ==>
            ParagraphCaption(doc, i) == ""
  {
    FindPreviousSpec(doc, i, P);
    FindNextSpec(doc, i, P);
  }

  /**
   * A standalone image with a truthy `alt` takes the stripped `alt`, so an
   * `alt` of only whitespace gives ""; only without one do the paragraphs count.
   */
  lemma ImageCaptionChoice(doc: Document, j: nat)
    requires j < |doc|
    ensures HasValue(doc[j], "alt") ==>
            var alt := doc[j].attrs["alt"];
            (exists a :: StripsTo(alt, a, ImageCaption(doc, j))) &&
            (ImageCaption(doc, j) == "" <==> forall k :: 0 <= k < |alt| ==> IsSpace(alt[k]))
    ensures !HasValue(doc[j], "alt") ==> ImageCaption(doc, j) == ParagraphCaption(doc, j)
  {
    if HasValue(doc[j], "alt") {
      var alt := doc[j].attrs["alt"];
      var a :| StripsTo(alt, a, Strip(alt));
      assert StripsTo(alt, a, ImageCaption(doc, j));
    }
  }
}
