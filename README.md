# Chart extraction with captions, in Dafny

This project models `extract_charts_with_captions` from `app.py`. That function
fetches a web page, parses it with BeautifulSoup and returns a list of
`{image_url, caption}` records. The model covers everything after parsing:

- the figure loop, which yields one record per `<figure>` whose first `<img>`
  has a truthy `src`;
- the image loop, which yields one record per `<img>` with a truthy `src`;
- the caption fallback chains of both loops;
- the construction of each record.

## Files

- `Strings.dfy` (module `Strings`): Python's `str.strip()` with no argument.
  It uses the character set for which `str.isspace()` holds and scans from
  both ends as CPython does.
- `Html.dfy` (module `Html`): the parsed page and the BeautifulSoup queries
  the function uses (`find`, `find_previous`, `find_next`, `find_all`).
- `Extraction.dfy` (module `Extraction`): the records, the specification
  functions for selection, captions and output, and the imperative
  extractor. The extractor is a method with the two loops; each loop
  appends to a growing `seq` of records.
- `Properties.dfy` (module `Properties`): what the output means, stated over
  the page rather than over the loops. It covers which elements yield a
  record, the output order, the record count, where each URL comes from and
  how each caption is chosen.

## How the page is represented

- The page is a `seq<Node>` in document order (preorder).
- A node carries:
  - its tag;
  - its attribute map;
  - `text`, which is what `get_text(strip=True)` returns for it;
  - `last`, the index of its last descendant. The descendants of node `i`
    are the nodes at indices `i+1 .. last`.
- `WellFormed` says these extents nest like a tree.
- Tags are told apart only as far as the function needs:
  `figure`, `figcaption`, `img`, `p`, or anything else.
- `find(tag)` is the first index inside the node's extent.
- `find_previous(tag)` is the closest earlier index. That includes the
  node's ancestors, because BeautifulSoup walks backwards through document
  order.
- `find_next(tag)` is the closest later index. That includes the node's own
  descendants, because the forward walk starts at the first child.
- `find_all(tag)` lists every index with the tag, in order.
- `urljoin` is the parameter `resolve: (string, string) -> string`, left
  uninterpreted. It stands for reference resolution as section 5.2 of
  RFC 3986 describes it.
- A BeautifulSoup `Tag` is always truthy. So `if img` and `if cap_tag` test
  only whether the element was found.
- `x.get(name)` is truthy exactly when the attribute is present and not the
  empty string (`HasValue`).

## How the extractor is structured

- `ExtractChartsWithCaptions` starts from an empty list. It runs the figure
  loop (`FigurePass`) and then the image loop (`ImagePass`), which appends to
  the same list.
- The two loops are two methods called in sequence, so that each loop's
  proof stays small.
- The body of each iteration is `FigureChart` or `ImageChart`. Inside it,
  `caption` is reassigned step by step, as in the source. The shared
  `prev_text or next_text` step is `ParagraphFallback`.
- Every method is proved against a specification function:
  - `Charts` for the whole result;
  - `FigureRecords` and `ImageRecords` for the loops;
  - `Record`, `FigureQualifies` and `ImageQualifies` for one iteration.
- `Properties.dfy` proves what those functions mean.

The records have exactly the two keys `image_url` and `caption`. For figures,
and for images without a truthy `alt`, the paragraph fallback tries the
preceding `<p>` first.

## Model

| member | source | states |
|---|---|---|
| Strings.Strip | app.py:36 | `alt.strip()`: the result is the slice of the input left after all leading and trailing white space is cut off, and it is empty exactly when the input is all white space |
| Html.FindFirstSpec | app.py:16 | the forward scan behind `find` and `find_next` misses no match: whenever a match lies in the range, it returns one no later than that match |
| Html.FindLastSpec | app.py:24 | the backward scan behind `find_previous` misses no match: whenever a match lies in the range, it returns one no earlier than that match |
| Html.FindSpec | app.py:16 | `fig.find(tag)` returns exactly the first descendant with the tag, and returns nothing exactly when no descendant has it |
| Html.FindPreviousSpec | app.py:24 | `find_previous("p")` returns exactly the nearest earlier `<p>`, and returns nothing exactly when no earlier `<p>` exists |
| Html.FindNextSpec | app.py:25 | `find_next("p")` returns exactly the nearest later `<p>`, descendants included, and returns nothing exactly when no later `<p>` exists |
| Html.FindAllFromSorted | app.py:15 | the scan behind `find_all` lists indices in strictly increasing order |
| Html.FindAllFromComplete | app.py:15 | the scan behind `find_all` leaves out no element with the tag |
| Html.FindAllSpec | app.py:15 | `find_all(tag)` lists exactly the elements with the tag, each once, in document order |
| Extraction.ParagraphFallback | app.py:24-27 | the caption is the preceding paragraph's text, or the following paragraph's text when the former is missing or empty, or "" |
| Extraction.FigureChart | app.py:16-28 | one figure iteration yields a record exactly when the figure qualifies, and then the record is the figure's `Record` |
| Extraction.ImageChart | app.py:32-42 | one image iteration yields a record exactly when `src` is truthy, and then the record is the image's `Record` |
| Extraction.FigureRecordsStep | app.py:15-28 | one turn of the figure loop extends the records so far by exactly what that turn yields |
| Extraction.ImageRecordsStep | app.py:31-42 | one turn of the image loop extends the records so far by exactly what that turn yields |
| Extraction.FigurePass | app.py:12-28 | the figure loop leaves exactly the records of the qualifying figures in `find_all` order |
| Extraction.ImagePass | app.py:31-42 | the image loop appends to the list exactly the records of the qualifying images in `find_all` order, and keeps what was already there |
| Extraction.ExtractChartsWithCaptions | app.py:12-44 | the returned list is `Charts`: the figure records followed by the image records |
| Properties.FigureRecordsFollow | app.py:15-28 | the m-th figure record is the record of the m-th qualifying figure, and there is one record per qualifying figure |
| Properties.ImageRecordsFollow | app.py:31-42 | the m-th image record is the record of the m-th qualifying image, and there is one record per qualifying image |
| Properties.ChartsLayout | app.py:12-44 | the output has one record per qualifying figure and per qualifying image, and record m is the record of its origin |
| Properties.KeepMembers | app.py:17 | filtering by the qualifying test drops exactly the elements that fail it |
| Properties.KeepIncreasing | app.py:15 | filtering keeps document order |
| Properties.QualifyingFiguresSpec | app.py:15-17 | the figures that yield records are exactly the qualifying ones, each once, in document order |
| Properties.QualifyingImagesSpec | app.py:31-32 | the images that yield records are exactly the `<img>` elements with a truthy `src`, each once, in document order |
| Properties.OutputOrder | app.py:15-42 | every figure record comes before every image record, and within each group the records follow document order |
| Properties.IncreasingCount | app.py:15 | a list of distinct element indices in increasing order has as many entries as distinct elements |
| Properties.RecordCount | app.py:17-42 | the number of records is the number of qualifying figures plus the number of `<img>` elements with a truthy `src` |
| Properties.FigureYieldsIff | app.py:16-17 | a figure yields a record if and only if its first descendant `<img>` exists and has a truthy `src` |
| Properties.FirstImageDecides | app.py:16-17 | a figure whose first `<img>` has no truthy `src` yields nothing, whatever later images in it carry |
| Properties.RecordSource | app.py:18 | every record's `image_url` is `resolve(url, src)` for an `<img>` with a truthy `src`: the figure's first `<img>`, or the image itself |
| Properties.ImageInFigureTwice | app.py:17-33 | the first `<img>` of a qualifying figure also yields a standalone record with the same `image_url` |
| Properties.FigureCaptionChoice | app.py:20-27 | a figure with a `<figcaption>` takes exactly that element's text, even when it is empty; only a figure without one uses the paragraph fallback |
| Properties.ParagraphCaptionChoice | app.py:24-27 | the fallback takes the nearest earlier `<p>`'s text if that is non-empty, else the nearest later `<p>`'s text, else "" |
| Properties.ImageCaptionChoice | app.py:35-41 | an image with a truthy `alt` takes the stripped `alt`, which is "" exactly when `alt` is all white space; without one, it takes the paragraph fallback |

## Left out

- Fetching the page (`requests.get`, `raise_for_status`, app.py:8-9) is network I/O, and any exception it raises is not modelled. The model starts from the parsed page and the base URL.
- HTML parsing (app.py:10) is done by a foreign library. The preorder node sequence stands in for its output, and tolerant parsing of malformed markup is not modelled.
- The internals of `urljoin` are a library implementation of section 5.2 of RFC 3986. `resolve` is an uninterpreted function of (base, reference).
- `resolve` is taken as total. `urljoin` raises `ValueError` on a reference with a malformed bracketed host (such as `//[x/a.png`), which aborts the whole call at app.py:18 or app.py:33 and returns no list. That error path is not modelled: `ExtractChartsWithCaptions` returns `Charts` for every page.
- How `get_text(strip=True)` joins and strips the text of a subtree is not modelled. Each node's `text` field is taken as that result.
- Tag names other than `figure`, `figcaption`, `img` and `p` are not told apart, because the function never queries them.
- The Streamlit user interface and its error display (app.py:47-73) are presentation only.
- Reading only: Dafny's value semantics make this hold by construction. The page is an immutable `seq` and no method has a `modifies` clause, so there is no separate lemma for it.
- Caption never `None`: the type `string` of `Chart.caption` rules this out, so there is no separate lemma for it.
- `Html.FindFirst`, `Html.FindLast`, `Html.Find`, `Html.FindPrevious` and `Html.FindNext` state in their own contracts only that a result they return is in range and carries the tag. That they miss no match is stated by the `...Spec` lemmas beside them.
