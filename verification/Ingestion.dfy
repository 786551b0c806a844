/**
 From extracted page texts to passages: parent chunks split again into child
 chunks (backend/retriever.py `_chunks_from_reader`). PDF extraction and the
 random parent identifiers are not part of this model: parents are numbered.
 */
module Ingestion {
  import opened Text
  import opened Cleaning
  import opened Splitter
  import opened Merging
  import opened DocumentIndex

  /** The chunking configuration; by default 2200/260 for parents and 520/90 for children. */
  datatype Sizes = Sizes(parentSize: nat, parentOverlap: int, childSize: nat, childOverlap: int,
                         separators: seq<string>)

  predicate Usable(z: Sizes) {
    z.parentSize >= 1 && z.childSize >= 1 && AllSeparators(z.separators)
  }

  /** A parent chunk and the children it is split into. */
  datatype Parent = Parent(text: string, children: seq<string>)

  /** The children of a parent; the parent itself when splitting leaves nothing. */
  function ParentOf(text: string, z: Sizes): (r: Parent)
    requires Usable(z)
    ensures r.text == text && r.children != []
  {
    var children := SplitText(text, z.childSize, z.childOverlap, z.separators);
    Parent(text, if children == [] then [text] else children)
  }

  function ParentsFor(texts: seq<string>, z: Sizes): (r: seq<Parent>)
    requires Usable(z)
    ensures |r| == |texts| && forall i :: 0 <= i < |texts| ==> r[i] == ParentOf(texts[i], z)
  {
    seq(|texts|, i requires 0 <= i < |texts| => ParentOf(texts[i], z))
  }

  function ParentsOf(page: string, z: Sizes): seq<Parent>
    requires Usable(z)
  {
    ParentsFor(SplitText(CleanText(page), z.parentSize, z.parentOverlap, z.separators), z)
  }

  /** Appends the children of one parent, numbered on from the list so far. */
  function AppendParent(before: seq<Passage>, parent: Parent, page: nat, ordinal: nat, index: nat): (r: seq<Passage>)
    ensures |r| == |before| + |parent.children| && r[..|before|] == before
    ensures forall i :: 0 <= i < |parent.children| ==>
              r[|before| + i] == Passage(parent.children[i], page, |before| + i, ordinal, parent.text, index, i)
  {
    before + seq(|parent.children|, i requires 0 <= i < |parent.children| =>
                   Passage(parent.children[i], page, |before| + i, ordinal, parent.text, index, i))
  }

  /** Appends the first `n` parents of a page. */
  function AppendParents(before: seq<Passage>, parents: seq<Parent>, n: nat, page: nat, first: nat): seq<Passage>
    requires n <= |parents|
  {
    if n == 0 then before
    else AppendParent(AppendParents(before, parents, n - 1, page, first), parents[n - 1], page, first + n - 1, n - 1)
  }

  function ParentCount(pages: seq<seq<Parent>>, n: nat): nat
    requires n <= |pages|
  {
    if n == 0 then 0 else ParentCount(pages, n - 1) + |pages[n - 1]|
  }

  /** The passages of the first `n` pages; page numbers start at 1. */
  function Layout(pages: seq<seq<Parent>>, n: nat): seq<Passage>
    requires n <= |pages|
  {
    if n == 0 then []
    else AppendParents(Layout(pages, n - 1), pages[n - 1], |pages[n - 1]|, n, ParentCount(pages, n - 1))
  }

  function SplitPages(pages: seq<string>, z: Sizes): (r: seq<seq<Parent>>)
    requires Usable(z)
    ensures |r| == |pages| && forall p :: 0 <= p < |pages| ==> r[p] == ParentsOf(pages[p], z)
  {
    seq(|pages|, p requires 0 <= p < |pages| => ParentsOf(pages[p], z))
  }

  function PassagesOf(pages: seq<string>, z: Sizes): seq<Passage>
    requires Usable(z)
  {
    Layout(SplitPages(pages, z), |pages|)
  }

  /** `_chunks_from_reader`: every chunk is numbered by the length of the list it is appended to. */
  method ChunksFromReader(pages: seq<string>, z: Sizes) returns (chunks: seq<Passage>)
    requires Usable(z)
    ensures chunks == PassagesOf(pages, z)
  {
    hide AppendParents, ParentsOf;
    chunks := [];
    var parent := 0;
    ghost var all := SplitPages(pages, z);
    for p := 0 to |pages|
      invariant chunks == Layout(all, p) && parent == ParentCount(all, p)
    {
      var parents := SplitPage(pages[p], z);
      assert parents == all[p];
      chunks, parent := AppendPage(chunks, parents, p + 1, parent);
    }
  }

  /** The texts that the loops of `_chunks_from_reader` run over for one page. */
  method SplitPage(page: string, z: Sizes) returns (parents: seq<Parent>)
    requires Usable(z)
    ensures parents == ParentsOf(page, z)
  {
    var texts := SplitTextInto(CleanText(page), z.parentSize, z.parentOverlap, z.separators);
    parents := SplitParents(texts, z);
  }

  method SplitParents(texts: seq<string>, z: Sizes) returns (parents: seq<Parent>)
    requires Usable(z)
    ensures parents == ParentsFor(texts, z)
  {
    hide ParentsFor, ParentOf;
    parents := [];
    NoParents(z);
    assert texts[..0] == [];
    for i := 0 to |texts|
      invariant parents == ParentsFor(texts[..i], z)
    {
      var parent := SplitParent(texts[i], z);
      ParentsForSnoc(texts[..i], texts[i], z);
      assert texts[..i] + [texts[i]] == texts[..i + 1];
      parents := parents + [parent];
    }
    assert texts[..|texts|] == texts;
  }

  lemma NoParents(z: Sizes)
    requires Usable(z)
    ensures ParentsFor([], z) == []
  {
  }

  lemma ParentsForSnoc(texts: seq<string>, text: string, z: Sizes)
    requires Usable(z)
    ensures ParentsFor(texts + [text], z) == ParentsFor(texts, z) + [ParentOf(text, z)]
  {
  }

  method SplitParent(text: string, z: Sizes) returns (parent: Parent)
    requires Usable(z)
    ensures parent == ParentOf(text, z)
  {
    var children := SplitTextInto(text, z.childSize, z.childOverlap, z.separators);
    if |children| == 0 {
      children := [text];
    }
    parent := Parent(text, children);
  }

  /** The two inner loops of `_chunks_from_reader`, for one page. */
  method AppendPage(before: seq<Passage>, parents: seq<Parent>, page: nat, first: nat)
    returns (chunks: seq<Passage>, parent: nat)
    ensures chunks == AppendParents(before, parents, |parents|, page, first)
    ensures parent == first + |parents|
  {
    chunks, parent := before, first;
    for k := 0 to |parents|
      invariant chunks == AppendParents(before, parents, k, page, first)
      invariant parent == first + k
    {
      chunks := AppendChildren(chunks, parents[k], page, parent, k);
      parent := parent + 1;
    }
  }

  /** The innermost loop of `_chunks_from_reader`. */
  method AppendChildren(before: seq<Passage>, parent: Parent, page: nat, ordinal: nat, index: nat)
    returns (chunks: seq<Passage>)
    ensures chunks == AppendParent(before, parent, page, ordinal, index)
  {
    chunks := before;
    for c := 0 to |parent.children|
      invariant chunks == AppendParent(before, parent, page, ordinal, index)[..|before| + c]
    {
      chunks := chunks + [Passage(parent.children[c], page, |chunks|, ordinal, parent.text, index, c)];
    }
  }

  /** The numbering is gapless: the i-th passage of a document carries index i. */
  predicate Numbered(passages: seq<Passage>) {
    forall i :: 0 <= i < |passages| ==> passages[i].chunkIndex == i
  }

  lemma {:induction false} ParentsAreNumbered(before: seq<Passage>, parents: seq<Parent>, n: nat, page: nat, first: nat)
    requires n <= |parents| && Numbered(before)
    ensures Numbered(AppendParents(before, parents, n, page, first))
  {
    if n > 0 {
      ParentsAreNumbered(before, parents, n - 1, page, first);
      var b := AppendParents(before, parents, n - 1, page, first);
      var r := AppendParent(b, parents[n - 1], page, first + n - 1, n - 1);
      forall i | 0 <= i < |r|
        ensures r[i].chunkIndex == i
      {
        if i < |b| {
          assert r[i] == r[..|b|][i] == b[i];
        } else {
          assert r[|b| + (i - |b|)].chunkIndex == |b| + (i - |b|);
        }
      }
    }
  }

  lemma {:induction false} LayoutIsNumbered(pages: seq<seq<Parent>>, n: nat)
    requires n <= |pages|
    ensures Numbered(Layout(pages, n))
  {
    if n > 0 {
      LayoutIsNumbered(pages, n - 1);
      ParentsAreNumbered(Layout(pages, n - 1), pages[n - 1], |pages[n - 1]|, n, ParentCount(pages, n - 1));
    }
  }

  // --------------------------------------------------- every passage knows its place

  /** Passage `i` is child `v` of parent `u` of page p + 1 (pages are numbered from 1). */
  predicate StandsAt(x: Passage, pages: seq<seq<Parent>>, i: nat, p: nat, u: nat, v: nat) {
    && p < |pages| && u < |pages[p]| && v < |pages[p][u].children|
    && x.content == pages[p][u].children[v] && x.parentContent == pages[p][u].text
    && x.page == p + 1 && x.parentIndex == u && x.childIndex == v
    && x.chunkIndex == i && x.parent == ParentCount(pages, p) + u
  }

  lemma {:induction false} AppendedStands(before: seq<Passage>, pages: seq<seq<Parent>>, p: nat, n: nat, i: nat)
    requires p < |pages| && n <= |pages[p]|
    requires i < |AppendParents(before, pages[p], n, p + 1, ParentCount(pages, p))|
    ensures var x := AppendParents(before, pages[p], n, p + 1, ParentCount(pages, p))[i];
            if i < |before| then x == before[i] else exists u: nat, v: nat :: StandsAt(x, pages, i, p, u, v)
  {
    if n > 0 {
      var b := AppendParents(before, pages[p], n - 1, p + 1, ParentCount(pages, p));
      var parent := pages[p][n - 1];
      var r := AppendParent(b, parent, p + 1, ParentCount(pages, p) + n - 1, n - 1);
      AppendedIsLonger(before, pages[p], n - 1, p + 1, ParentCount(pages, p));
      if i < |b| {
        AppendedStands(before, pages, p, n - 1, i);
        assert r[i] == r[..|b|][i] == b[i];
      } else {
        assert r[|b| + (i - |b|)] == Passage(parent.children[i - |b|], p + 1, i, ParentCount(pages, p) + n - 1,
                                             parent.text, n - 1, i - |b|);
        assert StandsAt(r[i], pages, i, p, n - 1, i - |b|);
      }
    }
  }

  lemma {:induction false} AppendedIsLonger(before: seq<Passage>, parents: seq<Parent>, n: nat, page: nat, first: nat)
    requires n <= |parents|
    ensures |AppendParents(before, parents, n, page, first)| >= |before|
  {
    if n > 0 {
      AppendedIsLonger(before, parents, n - 1, page, first);
    }
  }

  /** Every passage of a layout carries its place: its page, its parent there and its number among the children. */
  lemma {:induction false} LayoutStands(pages: seq<seq<Parent>>, n: nat, i: nat) returns (p: nat, u: nat, v: nat)
    requires n <= |pages| && i < |Layout(pages, n)|
    ensures p < n && StandsAt(Layout(pages, n)[i], pages, i, p, u, v)
  {
    var before := Layout(pages, n - 1);
    AppendedStands(before, pages, n - 1, |pages[n - 1]|, i);
    hide AppendParents, StandsAt, ParentCount;
    if i < |before| {
      p, u, v := LayoutStands(pages, n - 1, i);
    } else {
      p := n - 1;
      u, v :| StandsAt(Layout(pages, n)[i], pages, i, p, u, v);
    }
  }

  lemma {:induction false} ParentCountGrows(pages: seq<seq<Parent>>, p: nat, q: nat)
    requires p < q <= |pages|
    ensures ParentCount(pages, p) + |pages[p]| <= ParentCount(pages, q)
  {
    if p + 1 < q {
      ParentCountGrows(pages, p, q - 1);
    }
  }

  /** The page and the index there identify a parent in its document. */
  lemma PlacesIdentifyParents(pages: seq<seq<Parent>>, x: Passage, y: Passage, i: nat, p: nat, u: nat, v: nat,
                              j: nat, q: nat, s: nat, t: nat)
    requires StandsAt(x, pages, i, p, u, v) && StandsAt(y, pages, j, q, s, t)
    ensures x.parent == y.parent <==> x.page == y.page && x.parentIndex == y.parentIndex
  {
    if p < q {
      ParentCountGrows(pages, p, q);
    } else if q < p {
      ParentCountGrows(pages, q, p);
    }
  }

  lemma ParentsAreIdentified(pages: seq<string>, z: Sizes, i: nat, j: nat)
    requires Usable(z) && i < |PassagesOf(pages, z)| && j < |PassagesOf(pages, z)|
    ensures var passages := PassagesOf(pages, z);
            passages[i].parent == passages[j].parent
            <==> passages[i].page == passages[j].page && passages[i].parentIndex == passages[j].parentIndex
  {
    hide Layout, SplitPages, StandsAt, ParentsOf;
    var all := SplitPages(pages, z);
    var p, u, v := LayoutStands(all, |pages|, i);
    var q, s, t := LayoutStands(all, |pages|, j);
    PlacesIdentifyParents(all, PassagesOf(pages, z)[i], PassagesOf(pages, z)[j], i, p, u, v, j, q, s, t);
  }

  /** The passage carries the number of its parent among these, and its own among the parent's children. */
  predicate SitsIn(x: Passage, parents: seq<Parent>) {
    && x.parentIndex < |parents| && x.childIndex < |parents[x.parentIndex].children|
    && x.parentContent == parents[x.parentIndex].text
    && x.content == parents[x.parentIndex].children[x.childIndex]
  }

  /** In terms of the text of its page alone: parent u of a page carries index u, and child v of it index v. */
  lemma PassageStands(pages: seq<string>, z: Sizes, i: nat)
    requires Usable(z) && i < |PassagesOf(pages, z)|
    ensures var x := PassagesOf(pages, z)[i];
            x.chunkIndex == i && 1 <= x.page <= |pages| && SitsIn(x, ParentsOf(pages[x.page - 1], z))
  {
    hide Layout, ParentsOf, ParentCount;
    var p, u, v := LayoutStands(SplitPages(pages, z), |pages|, i);
  }

  /**
   Parents are cut to the parent size and children to the child size, but for what
   an overlap may add; a parent that splitting would leave without any child is its own.
   */
  lemma PassageSizes(pages: seq<string>, z: Sizes, i: nat)
    requires Usable(z) && i < |PassagesOf(pages, z)|
    ensures var x := PassagesOf(pages, z)[i];
            && 1 <= |x.parentContent| <= z.parentSize + Slack(z.parentOverlap)
            && 1 <= |x.content|
            && (|x.content| <= z.childSize + Slack(z.childOverlap) || x.content == x.parentContent)
  {
    hide PassagesOf, ParentsOf, SitsIn, Slack;
    PassageStands(pages, z, i);
    var x := PassagesOf(pages, z)[i];
    PlacedSizes(pages[x.page - 1], x, z);
  }

  lemma PlacedSizes(page: string, x: Passage, z: Sizes)
    requires Usable(z) && SitsIn(x, ParentsOf(page, z))
    ensures 1 <= |x.parentContent| <= z.parentSize + Slack(z.parentOverlap)
    ensures 1 <= |x.content|
    ensures |x.content| <= z.childSize + Slack(z.childOverlap) || x.content == x.parentContent
  {
    var texts := SplitText(CleanText(page), z.parentSize, z.parentOverlap, z.separators);
    SplitTextSizes(CleanText(page), z.parentSize, z.parentOverlap, z.separators);
    SplitTextSizes(texts[x.parentIndex], z.childSize, z.childOverlap, z.separators);
    assert ParentsOf(page, z)[x.parentIndex] == ParentOf(texts[x.parentIndex], z);
  }

  // --------------------------------------------------- the layout can be read back

  /** The parents of a page with their children, read back from the passages alone. */
  function Families(passages: seq<Passage>, page: nat): seq<Parent> {
    if passages == [] then [] else
      var families, last := Families(passages[..|passages| - 1], page), passages[|passages| - 1];
      if last.page != page then families
      else if last.childIndex == 0 || families == [] then
        families + [Parent(last.parentContent, [last.content])]
      else
        var family := families[|families| - 1];
        families[..|families| - 1] + [family.(children := family.children + [last.content])]
  }

  lemma FamiliesSnoc(passages: seq<Passage>, p: Passage, page: nat)
    ensures var families := Families(passages, page);
            Families(passages + [p], page) ==
            if p.page != page then families
            else if p.childIndex == 0 || families == [] then families + [Parent(p.parentContent, [p.content])]
            else families[..|families| - 1]
                 + [families[|families| - 1].(children := families[|families| - 1].children + [p.content])]
  {
    assert (passages + [p])[..|passages|] == passages;
  }

  /** The passages of the first `k` children of a parent extend its family. */
  lemma {:induction false} FamilyGrows(before: seq<Passage>, parent: Parent, page: nat, ordinal: nat, index: nat,
                                       k: nat, q: nat)
    requires 0 < k <= |parent.children|
    ensures Families(AppendParent(before, parent, page, ordinal, index)[..|before| + k], q)
            == if page == q then Families(before, q) + [Parent(parent.text, parent.children[..k])]
              else Families(before, q)
  {
    hide Families, AppendParent;
    var r := AppendParent(before, parent, page, ordinal, index);
    var b, last := r[..|before| + (k - 1)], r[|before| + (k - 1)];
    assert r[..|before| + k] == b + [last];
    FamiliesSnoc(b, last, q);
    if k == 1 {
      assert b == before && parent.children[..1] == [parent.children[0]];
    } else {
      FamilyGrows(before, parent, page, ordinal, index, k - 1, q);
      assert parent.children[..k] == parent.children[..k - 1] + [parent.children[k - 1]];
      LastReplaced(Families(before, q), Parent(parent.text, parent.children[..k - 1]));
    }
  }

  lemma LastReplaced(families: seq<Parent>, family: Parent)
    ensures (families + [family])[..|families|] == families && (families + [family])[|families|] == family
  {
  }

  lemma FamilyAppended(before: seq<Passage>, parent: Parent, page: nat, ordinal: nat, index: nat, q: nat)
    requires parent.children != []
    ensures Families(AppendParent(before, parent, page, ordinal, index), q)
            == if page == q then Families(before, q) + [parent] else Families(before, q)
  {
    var r, n := AppendParent(before, parent, page, ordinal, index), |parent.children|;
    FamilyGrows(before, parent, page, ordinal, index, n, q);
    assert r[..|before| + n] == r && parent.children[..n] == parent.children;
  }

  predicate AllHaveChildren(parents: seq<Parent>) {
    forall i :: 0 <= i < |parents| ==> parents[i].children != []
  }

  lemma {:induction false} FamiliesAppended(before: seq<Passage>, parents: seq<Parent>, n: nat, page: nat, first: nat,
                                            q: nat)
    requires n <= |parents| && AllHaveChildren(parents)
    ensures Families(AppendParents(before, parents, n, page, first), q)
            == if page == q then Families(before, q) + parents[..n] else Families(before, q)
  {
    hide Families, AppendParent;
    if n == 0 {
      assert Families(before, q) + parents[..0] == Families(before, q);
    } else {
      FamiliesAppended(before, parents, n - 1, page, first, q);
      var b := AppendParents(before, parents, n - 1, page, first);
      FamilyAppended(b, parents[n - 1], page, first + n - 1, n - 1, q);
      assert parents[..n] == parents[..n - 1] + [parents[n - 1]];
      assert Families(before, q) + parents[..n - 1] + [parents[n - 1]]
             == Families(before, q) + (parents[..n - 1] + [parents[n - 1]]);
    }
  }

  lemma PageAppended(before: seq<Passage>, own: seq<Parent>, page: nat, first: nat, q: nat)
    requires AllHaveChildren(own)
    ensures Families(AppendParents(before, own, |own|, page, first), q)
            == Families(before, q) + if page == q then own else []
  {
    hide Families, AppendParents;
    FamiliesAppended(before, own, |own|, page, first, q);
    assert own[..|own|] == own && Families(before, q) + [] == Families(before, q);
  }

  ghost predicate AllHold(pages: seq<seq<Parent>>) {
    forall k :: 0 <= k < |pages| ==> AllHaveChildren(pages[k])
  }

  lemma {:induction false} LayoutHoldsPages(pages: seq<seq<Parent>>, n: nat, p: nat)
    requires n <= |pages| && p < |pages| && AllHold(pages)
    ensures Families(Layout(pages, n), p + 1) == if p < n then pages[p] else []
  {
    hide Families, AppendParents, AllHaveChildren, ParentCount;
    if n == 0 {
      NoFamilies(p + 1);
    } else {
      LayoutHoldsPages(pages, n - 1, p);
      PageAppended(Layout(pages, n - 1), pages[n - 1], n, ParentCount(pages, n - 1), p + 1);
    }
  }

  lemma NoFamilies(page: nat)
    ensures Families([], page) == []
  {
  }

  /** The passages of a page, regrouped, are its parent chunks with their children: the layout loses nothing. */
  lemma PassagesHoldPage(pages: seq<string>, p: nat, z: Sizes)
    requires p < |pages| && Usable(z)
    ensures Families(PassagesOf(pages, z), p + 1) == ParentsOf(pages[p], z)
  {
    LayoutHoldsPages(SplitPages(pages, z), |pages|, p);
  }

  // --------------------------------------------------- every ink character is indexed

  /** The ink of a parent, read from its children without the tails they carry. */
  function ChildInk(parent: Parent, overlap: int): string {
    Filter(Recovered(parent.children, overlap), Ink)
  }

  function Drop(s: string, n: nat): string {
    if n <= |s| then s[n..] else ""
  }

  /**
   The ink of a page, read from the children of its parents without the tails
   that children carry within a parent and parents carry within the page.
   */
  function PageInk(parents: seq<Parent>, previous: string, parentOverlap: int, childOverlap: int): string
    decreases |parents|
  {
    if parents == [] then ""
    else Drop(ChildInk(parents[0], childOverlap), |Filter(TailOverlap(previous, parentOverlap), Ink)|)
         + PageInk(parents[1..], parents[0].text, parentOverlap, childOverlap)
  }

  lemma OnlyChunk(text: string, overlap: int)
    ensures Recovered([text], overlap) == text
  {
    assert [text][1..] == [];
    assert FreshParts("", [text], overlap) == [text];
  }

  lemma ChildrenHoldInk(text: string, z: Sizes)
    requires Usable(z)
    ensures ChildInk(ParentOf(text, z), z.childOverlap) == Filter(text, Ink)
  {
    SplitTextKeepsInk(text, z.childSize, z.childOverlap, z.separators);
    OnlyChunk(text, z.childOverlap);
  }

  /** The ink of a packed chunk is that of the tail it carries, then that of its own part. */
  lemma CarriedInk(previous: string, chunk: string, own: seq<string>, overlap: int)
    requires own != [] && chunk == Join(Carry(previous, overlap) + own, " ")
    ensures Filter(Fresh(previous, chunk, overlap), Ink)
            == Drop(Filter(chunk, Ink), |Filter(TailOverlap(previous, overlap), Ink)|)
  {
    var tail, rest := TailOverlap(previous, overlap), Join(own, " ");
    JoinAppend(Carry(previous, overlap), own, " ");
    if tail != "" {
      assert chunk == tail + " " + rest && Fresh(previous, chunk, overlap) == rest;
      FilterAppend(tail + " ", rest, Ink);
      FilterAppend(tail, " ", Ink);
      FilterNone(" ", Ink);
    }
  }

  lemma JoinedInk(part: string, parts: seq<string>)
    ensures Filter(Join([part] + parts, " "), Ink) == Filter(part, Ink) + Filter(Join(parts, " "), Ink)
  {
    JoinAppend([part], parts, " ");
    if parts != [] {
      FilterAppend(part + " ", Join(parts, " "), Ink);
      FilterAppend(part, " ", Ink);
      FilterNone(" ", Ink);
    }
  }

  lemma {:induction false} PackedInk(previous: string, chunks: seq<string>, groups: seq<seq<string>>, z: Sizes)
    requires Usable(z) && Packed(previous, chunks, groups, z.parentSize, z.parentOverlap)
    ensures PageInk(ParentsFor(chunks, z), previous, z.parentOverlap, z.childOverlap)
            == Filter(Join(FreshParts(previous, chunks, z.parentOverlap), " "), Ink)
    decreases |chunks|
  {
    if chunks != [] {
      var parents, rest := ParentsFor(chunks, z), chunks[1..];
      PackedInk(chunks[0], rest, groups[1..], z);
      ChildrenHoldInk(chunks[0], z);
      CarriedInk(previous, chunks[0], groups[0], z.parentOverlap);
      JoinedInk(Fresh(previous, chunks[0], z.parentOverlap), FreshParts(chunks[0], rest, z.parentOverlap));
      assert parents[1..] == ParentsFor(rest, z);
    }
  }

  lemma PageHoldsInk(page: string, z: Sizes)
    requires Usable(z)
    ensures PageInk(ParentsOf(page, z), "", z.parentOverlap, z.childOverlap) == Filter(page, Ink)
  {
    var clean := CleanText(page);
    var groups := SplitTextPacks(clean, z.parentSize, z.parentOverlap, z.separators);
    PackedInk("", SplitText(clean, z.parentSize, z.parentOverlap, z.separators), groups, z);
    SplitTextKeepsInk(clean, z.parentSize, z.parentOverlap, z.separators);
    CleaningKeepsInk(page);
  }

  /**
   Ingestion loses no ink: reading the passages of a page in order, without the
   tails that are carried from child to child and from parent to parent, gives
   every character of the page that is not whitespace, a hyphen, a soft hyphen
   or separator punctuation, in order and as often as it occurs.
   */
  lemma IngestionLosesNoInk(pages: seq<string>, p: nat, z: Sizes)
    requires p < |pages| && Usable(z)
    ensures PageInk(Families(PassagesOf(pages, z), p + 1), "", z.parentOverlap, z.childOverlap)
            == Filter(pages[p], Ink)
  {
    PassagesHoldPage(pages, p, z);
    PageHoldsInk(pages[p], z);
  }
}
