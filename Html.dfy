/**
 * The parsed page as BeautifulSoup presents it to the extractor: its elements in
 * document order (preorder), with the few tree queries the extractor uses.
 */
module Html {

  datatype Option<T> = None | Some(value: T)

  /** An element's tag name, as far as the extractor tells tag names apart. */
  datatype Tag = Figure | Figcaption | Img | P | Other

  /**
   * One element of the page. `text` is what `get_text(strip=True)` returns for it;
   * its descendants are the elements at indices `i + 1 .. last` of the page.
   */
  datatype Node = Node(tag: Tag, attrs: map<string, string>, text: string, last: nat)

  type Document = seq<Node>

  /** Every subtree extent stays inside the page and nests inside its ancestors' extents. */
  predicate WellFormed(doc: Document) {
    forall i :: 0 <= i < |doc| ==>
      i <= doc[i].last < |doc| &&
      forall j :: i < j <= doc[i].last ==> doc[j].last <= doc[i].last
  }

  /** `node.get(name)` is truthy: the attribute is present and not the empty string. */
  predicate HasValue(n: Node, name: string) {
    name in n.attrs && n.attrs[name] != ""
  }

  /** The first index in [lo, hi) whose element has tag `tag`. */
  function FindFirst(doc: Document, tag: Tag, lo: nat, hi: nat): (r: Option<nat>)
    requires lo <= hi <= |doc|
    ensures r.Some? ==> lo <= r.value < hi && doc[r.value].tag == tag
    decreases hi - lo
  {
    if lo == hi then None
    else if doc[lo].tag == tag then Some(lo)
    else FindFirst(doc, tag, lo + 1, hi)
  }

  /** The last index in [lo, hi) whose element has tag `tag`. */
  function FindLast(doc: Document, tag: Tag, lo: nat, hi: nat): (r: Option<nat>)
    requires lo <= hi <= |doc|
    ensures r.Some? ==> lo <= r.value < hi && doc[r.value].tag == tag
    decreases hi
  {
    if lo == hi then None
    else if doc[hi - 1].tag == tag then Some(hi - 1)
    else FindLast(doc, tag, lo, hi - 1)
  }

  /** `doc[i].find(tag)`: the first descendant with that tag, if any. */
  function Find(doc: Document, i: nat, tag: Tag): (r: Option<nat>)
    requires WellFormed(doc) && i < |doc|
    ensures r.Some? ==> i < r.value <= doc[i].last && r.value < |doc| && doc[r.value].tag == tag
  {
    FindFirst(doc, tag, i + 1, doc[i].last + 1)
  }

  /**
   * `doc[i].find_previous(tag)`: the walk backwards in document order, so an
   * enclosing element counts as well as an earlier one.
   */
  function FindPrevious(doc: Document, i: nat, tag: Tag): (r: Option<nat>)
    requires i <= |doc|
    ensures r.Some? ==> r.value < i && doc[r.value].tag == tag
  {
    FindLast(doc, tag, 0, i)
  }

  /**
   * `doc[i].find_next(tag)`: the walk forwards in document order, which starts
   * at the element's own first child, so a descendant counts.
   */
  function FindNext(doc: Document, i: nat, tag: Tag): (r: Option<nat>)
    requires i < |doc|
    ensures r.Some? ==> i < r.value < |doc| && doc[r.value].tag == tag
  {
    FindFirst(doc, tag, i + 1, |doc|)
  }

  /** `c` is the first descendant of element `i` with tag `tag`. */
  predicate IsFirstDescendant(doc: Document, i: nat, tag: Tag, c: nat) {
    i < |doc| && i < c <= doc[i].last && c < |doc| && doc[c].tag == tag &&
    forall k :: i < k < c ==> doc[k].tag != tag
  }

  /** `j` is the closest element before `i` in document order with tag `tag`. */
  predicate IsNearestBefore(doc: Document, i: nat, tag: Tag, j: nat) {
    j < i <= |doc| && doc[j].tag == tag &&
    forall k :: j < k < i ==> doc[k].tag != tag
  }

  /** `j` is the closest element after `i` in document order with tag `tag`. */
  predicate IsNearestAfter(doc: Document, i: nat, tag: Tag, j: nat) {
    i < j < |doc| && doc[j].tag == tag &&
    forall k :: i < k < j ==> doc[k].tag != tag
  }

  /** `FindFirst` misses no match: it finds one whenever [lo, hi) holds one, and never a later one. */
  lemma {:induction false} FindFirstSpec(doc: Document, tag: Tag, lo: nat, hi: nat)
    requires lo <= hi <= |doc|
    ensures var r := FindFirst(doc, tag, lo, hi);
            forall k :: lo <= k < hi && doc[k].tag == tag ==> r.Some? && r.value <= k
    decreases hi - lo
  {
    if lo < hi && doc[lo].tag != tag {
      FindFirstSpec(doc, tag, lo + 1, hi);
    }
  }

  /** `FindLast` misses no match: it finds one whenever [lo, hi) holds one, and never an earlier one. */
  lemma {:induction false} FindLastSpec(doc: Document, tag: Tag, lo: nat, hi: nat)
    requires lo <= hi <= |doc|
    ensures var r := FindLast(doc, tag, lo, hi);
            forall k :: lo <= k < hi && doc[k].tag == tag ==> r.Some? && k <= r.value
    decreases hi
  {
    if lo < hi && doc[hi - 1].tag != tag {
      FindLastSpec(doc, tag, lo, hi - 1);
    }
  }

  /** `find` returns exactly the first descendant with the tag, and nothing when no descendant has it. */
  lemma FindSpec(doc: Document, i: nat, tag: Tag)
    requires WellFormed(doc) && i < |doc|
    ensures var r := Find(doc, i, tag);
            (r.Some? ==> IsFirstDescendant(doc, i, tag, r.value)) &&
            (r.None? <==> forall k :: i < k <= doc[i].last ==> doc[k].tag != tag) &&
            (forall c: nat :: IsFirstDescendant(doc, i, tag, c) ==> r == Some(c))
  {
    FindFirstSpec(doc, tag, i + 1, doc[i].last + 1);
  }

  /** `find_previous` returns exactly the nearest earlier element with the tag, and nothing when there is none. */
  lemma FindPreviousSpec(doc: Document, i: nat, tag: Tag)
    requires i <= |doc|
    ensures var r := FindPrevious(doc, i, tag);
            (r.Some? ==> IsNearestBefore(doc, i, tag, r.value)) &&
            (r.None? <==> forall k :: 0 <= k < i ==> doc[k].tag != tag) &&
            (forall j: nat :: IsNearestBefore(doc, i, tag, j) ==> r == Some(j))
  {
    FindLastSpec(doc, tag, 0, i);
  }

  /** `find_next` returns exactly the nearest later element with the tag, and nothing when there is none. */
  lemma FindNextSpec(doc: Document, i: nat, tag: Tag)
    requires i < |doc|
    ensures var r := FindNext(doc, i, tag);
            (r.Some? ==> IsNearestAfter(doc, i, tag, r.value)) &&
            (r.None? <==> forall k :: i < k < |doc| ==> doc[k].tag != tag) &&
            (forall j: nat :: IsNearestAfter(doc, i, tag, j) ==> r == Some(j))
  {
    FindFirstSpec(doc, tag, i + 1, |doc|);
  }

  /** The indices in [lo, |doc|) whose element has tag `tag`, in increasing order. */
  function FindAllFrom(doc: Document, tag: Tag, lo: nat): (r: seq<nat>)
    requires lo <= |doc|
    ensures forall k :: 0 <= k < |r| ==> lo <= r[k] < |doc| && doc[r[k]].tag == tag
    decreases |doc| - lo
  {
    if lo == |doc| then []
    else (if doc[lo].tag == tag then [lo] else []) + FindAllFrom(doc, tag, lo + 1)
  }

  /** `soup.find_all(tag)`: every element with that tag, in document order. */
  function FindAll(doc: Document, tag: Tag): (r: seq<nat>)
    ensures forall k :: 0 <= k < |r| ==> r[k] < |doc| && doc[r[k]].tag == tag
  {
    FindAllFrom(doc, tag, 0)
  }

  /** The indices are listed in strictly increasing order, so each appears once. */
  predicate Increasing(s: seq<nat>) {
    forall k, m :: 0 <= k < m < |s| ==> s[k] < s[m]
  }

  /** `FindAllFrom` lists its indices in strictly increasing order. */
  lemma {:induction false} FindAllFromSorted(doc: Document, tag: Tag, lo: nat)
    requires lo <= |doc|
    ensures Increasing(FindAllFrom(doc, tag, lo))
    decreases |doc| - lo
  {
    if lo < |doc| {
      FindAllFromSorted(doc, tag, lo + 1);
      var rest := FindAllFrom(doc, tag, lo + 1);
      var head: seq<nat> := if doc[lo].tag == tag then [lo] else [];
      var r := head + rest;
      assert FindAllFrom(doc, tag, lo) == r;
      forall k, m | 0 <= k < m < |r|
        ensures r[k] < r[m]
      {
        assert r[m] == rest[m - |head|] && lo < rest[m - |head|];
        if k >= |head| {
          assert r[k] == rest[k - |head|];
        }
      }
    }
  }

  /** `FindAllFrom` leaves out no index in [lo, |doc|) with the tag. */
  lemma {:induction false} FindAllFromComplete(doc: Document, tag: Tag, lo: nat, j: nat)
    requires lo <= j < |doc| && doc[j].tag == tag
    ensures j in FindAllFrom(doc, tag, lo)
    decreases j - lo
  {
    if lo < j {
      FindAllFromComplete(doc, tag, lo + 1, j);
    }
  }

  /** `find_all` returns exactly the elements with the tag, each once, in document order. */
  lemma FindAllSpec(doc: Document, tag: Tag)
    ensures var r := FindAll(doc, tag);
            Increasing(r) &&
            (forall j: nat :: j in r <==> j < |doc| && doc[j].tag == tag)
  {
    FindAllFromSorted(doc, tag, 0);
    assert FindAll(doc, tag) == FindAllFrom(doc, tag, 0);
    forall j: nat | j < |doc| && doc[j].tag == tag
      ensures j in FindAll(doc, tag)
    {
      FindAllFromComplete(doc, tag, 0, j);
    }
  }
}
