/**
 Greedy packing of segments into overlapping chunks, and `split_text` as a whole
 (backend/retriever.py `_merge_segments`, `_tail_overlap`, `split_text`).
 */
module Merging {
  import opened Text
  import opened Cleaning
  import opened Splitter

  function TailOverlap(text: string, overlap: int): (r: string)
    ensures r != "" ==> Tidy(r) && |r| <= overlap < |text|
  {
    if overlap <= 0 || |text| <= overlap then "" else Strip(text[|text| - overlap..], PySpace)
  }

  /** What a new chunk starts with: the tail of the previous one, if there is any. */
  function Carry(previous: string, overlap: int): (r: seq<string>)
    ensures |r| <= 1 && forall i :: 0 <= i < |r| ==> Tidy(r[i]) && |r[i]| <= overlap
  {
    var tail := TailOverlap(previous, overlap);
    if tail == "" then [] else [tail]
  }

  function Flushed(current: seq<string>): string {
    Strip(Join(current, " "), PySpace)
  }

  function NonEmpty(chunk: string): seq<string> {
    if chunk == "" then [] else [chunk]
  }

  /** The segments that are not empty once cleaned, in order. */
  function Cleaned(segments: seq<string>): seq<string> {
    if segments == [] then [] else NonEmpty(CleanText(segments[0])) + Cleaned(segments[1..])
  }

  /** The chunks still to be emitted for cleaned `segments` when `current` is being filled. */
  function Merge(current: seq<string>, segments: seq<string>, size: int, overlap: int): seq<string>
    decreases |segments|
  {
    if segments == [] then
      if current == [] then [] else NonEmpty(Flushed(current))
    else if current != [] && |Join(current, " ")| + 1 + |segments[0]| > size then
      NonEmpty(Flushed(current))
      + Merge(Carry(Flushed(current), overlap) + [segments[0]], segments[1..], size, overlap)
    else
      Merge(current + [segments[0]], segments[1..], size, overlap)
  }

  predicate AllTidy(parts: seq<string>) {
    forall i :: 0 <= i < |parts| ==> Tidy(parts[i])
  }

  lemma {:induction false} JoinTidy(parts: seq<string>)
    requires parts != [] && AllTidy(parts)
    ensures Tidy(Join(parts, " "))
  {
    if |parts| > 1 {
      JoinTidy(parts[1..]);
    }
  }

  lemma JoinSnoc(parts: seq<string>, s: string)
    ensures parts != [] ==> Join(parts + [s], " ") == Join(parts, " ") + " " + s
    ensures parts == [] ==> Join(parts + [s], " ") == s
  {
    JoinAppend(parts, [s], " ");
  }

  lemma MergeTakes(current: seq<string>, segment: string, rest: seq<string>, size: int, overlap: int)
    ensures Merge(current, [segment] + rest, size, overlap) ==
            if current != [] && |Join(current, " ")| + 1 + |segment| > size then
              NonEmpty(Flushed(current)) + Merge(Carry(Flushed(current), overlap) + [segment], rest, size, overlap)
            else Merge(current + [segment], rest, size, overlap)
  {
    assert ([segment] + rest)[1..] == rest;
  }

  lemma TidySnoc(parts: seq<string>, s: string)
    requires AllTidy(parts) && Tidy(s)
    ensures AllTidy(parts + [s])
  {
  }

  lemma AppendAssociates(a: seq<string>, b: seq<string>, c: seq<string>)
    ensures a + (b + c) == (a + b) + c
  {
  }

  /** `_merge_segments`: `currentLen` is always the length of the joined current parts. */
  method MergeSegments(segments: seq<string>, size: int, overlap: int) returns (chunks: seq<string>)
    ensures chunks == Merge([], Cleaned(segments), size, overlap)
  {
    chunks := [];
    var current: seq<string> := [];
    var currentLen := 0;
    ghost var goal := Merge([], Cleaned(segments), size, overlap);
    for i := 0 to |segments|
      invariant AllTidy(current)
      invariant currentLen == |Join(current, " ")|
      invariant currentLen == 0 <==> current == []
      invariant goal == chunks + Merge(current, Cleaned(segments[i..]), size, overlap)
    {
      ghost var rest := Cleaned(segments[i + 1..]);
      assert segments[i..][1..] == segments[i + 1..];
      var segment := CleanText(segments[i]);
      assert Cleaned(segments[i..]) == NonEmpty(segment) + rest;
      if segment != "" {
        MergeTakes(current, segment, rest, size, overlap);
        ghost var before := chunks;
        var separatorLen := if current != [] then 1 else 0;
        if current != [] && currentLen + separatorLen + |segment| > size {
          var chunk := Flushed(current);
          if chunk != "" {
            chunks := chunks + [chunk];
          }
          var overlapText := TailOverlap(chunk, overlap);
          current := if overlapText != "" then [overlapText] else [];
          currentLen := |overlapText|;
          assert current == Carry(chunk, overlap);
          AppendAssociates(before, NonEmpty(chunk), Merge(current + [segment], rest, size, overlap));
          assert chunks == before + NonEmpty(chunk);
          assert goal == before + (NonEmpty(chunk) + Merge(current + [segment], rest, size, overlap));
        }
        assert goal == chunks + Merge(current + [segment], rest, size, overlap);
        JoinSnoc(current, segment);
        TidySnoc(current, segment);
        current := current + [segment];
        currentLen := currentLen + (if currentLen != 0 then 1 else 0) + |segment|;
      } else {
        assert [] + rest == rest;
      }
    }
    if current != [] {
      var chunk := Flushed(current);
      if chunk != "" {
        chunks := chunks + [chunk];
      }
    }
  }

  // --------------------------------------------------- what the packing means

  lemma {:induction false} CleanedIsTidy(segments: seq<string>)
    ensures AllTidy(Cleaned(segments))
  {
    if segments != [] {
      CleanedIsTidy(segments[1..]);
    }
  }

  function Flatten(groups: seq<seq<string>>): seq<string> {
    if groups == [] then [] else groups[0] + Flatten(groups[1..])
  }

  /** Every segment after the first was added within the size limit. */
  predicate GrownWithin(carry: seq<string>, own: seq<string>, size: int) {
    forall n :: 2 <= n <= |own| ==> |Join(carry + own[..n], " ")| <= size
  }

  lemma GrowsByOne(carry: seq<string>, own: seq<string>, segment: string, size: int)
    requires own != [] && GrownWithin(carry, own, size)
    requires |Join(carry + (own + [segment]), " ")| <= size
    ensures GrownWithin(carry, own + [segment], size)
  {
    var grown := own + [segment];
    forall n | 2 <= n <= |grown|
      ensures |Join(carry + grown[..n], " ")| <= size
    {
      assert n <= |own| ==> grown[..n] == own[..n];
      assert n == |grown| ==> grown[..n] == grown;
    }
  }

  /**
   The chunks that follow `previous` carry the given groups of segments, greedily:
   every chunk is the carried tail followed by at least one segment of its own;
   beyond the first, a segment is added only while the chunk stays within `size`;
   and a new chunk is started only when the next segment would not have fitted.
   */
  predicate Packed(previous: string, chunks: seq<string>, groups: seq<seq<string>>, size: int, overlap: int)
    decreases |chunks|
  {
    && |chunks| == |groups|
    && (chunks != [] ==>
          && groups[0] != [] && AllTidy(groups[0])
          && chunks[0] == Join(Carry(previous, overlap) + groups[0], " ")
          && GrownWithin(Carry(previous, overlap), groups[0], size)
          && (|chunks| > 1 && groups[1] != [] ==> |chunks[0]| + 1 + |groups[1][0]| > size)
          && Packed(chunks[0], chunks[1..], groups[1..], size, overlap))
  }

  lemma PackedCons(previous: string, own: seq<string>, later: seq<string>, rest: seq<seq<string>>, size: int,
                   overlap: int)
    requires own != [] && AllTidy(own) && GrownWithin(Carry(previous, overlap), own, size)
    requires var chunk := Join(Carry(previous, overlap) + own, " ");
             && Packed(chunk, later, rest, size, overlap)
             && (rest != [] && rest[0] != [] ==> |chunk| + 1 + |rest[0][0]| > size)
    ensures var chunk := Join(Carry(previous, overlap) + own, " ");
            Packed(previous, [chunk] + later, [own] + rest, size, overlap)
  {
    var chunk := Join(Carry(previous, overlap) + own, " ");
    assert ([chunk] + later)[1..] == later && ([own] + rest)[1..] == rest;
  }

  /** What one step of the merge does when the current chunk holds tidy parts. */
  lemma MergeStep(current: seq<string>, segments: seq<string>, size: int, overlap: int)
    requires current != [] && AllTidy(current)
    ensures var chunk := Join(current, " ");
            Merge(current, segments, size, overlap) ==
            if segments == [] then [chunk]
            else if |chunk| + 1 + |segments[0]| > size then
              [chunk] + Merge(Carry(chunk, overlap) + [segments[0]], segments[1..], size, overlap)
            else Merge(current + [segments[0]], segments[1..], size, overlap)
  {
    JoinTidy(current);
    assert Flushed(current) == Join(current, " ");
  }

  lemma HeadAndTail(segments: seq<string>)
    requires segments != [] && AllTidy(segments)
    ensures AllTidy([segments[0]]) && AllTidy(segments[1..]) && [segments[0]] + segments[1..] == segments
  {
  }

  lemma OneHasGrown(carry: seq<string>, own: seq<string>, size: int)
    requires |own| == 1
    ensures GrownWithin(carry, own, size)
  {
  }

  /** Merging packs: `own` are the segments already in the current chunk. */
  lemma {:induction false} MergePacks(previous: string, own: seq<string>, segments: seq<string>, size: int,
                                      overlap: int)
    returns (groups: seq<seq<string>>)
    requires own != [] && AllTidy(own) && AllTidy(segments)
    requires GrownWithin(Carry(previous, overlap), own, size)
    ensures Packed(previous, Merge(Carry(previous, overlap) + own, segments, size, overlap), groups, size, overlap)
    ensures Flatten(groups) == own + segments
    ensures groups != [] && groups[0] != [] && groups[0][0] == own[0]
    decreases |segments|, 1
  {
    if segments == [] {
      groups := LastChunk(previous, own, size, overlap);
    } else if |Join(Carry(previous, overlap) + own, " ")| + 1 + |segments[0]| > size {
      groups := StartChunk(previous, own, segments, size, overlap);
    } else {
      groups := GrowChunk(previous, own, segments, size, overlap);
    }
  }

  lemma LastChunk(previous: string, own: seq<string>, size: int, overlap: int) returns (groups: seq<seq<string>>)
    requires own != [] && AllTidy(own) && GrownWithin(Carry(previous, overlap), own, size)
    ensures Packed(previous, Merge(Carry(previous, overlap) + own, [], size, overlap), groups, size, overlap)
    ensures Flatten(groups) == own
    ensures groups != [] && groups[0] != [] && groups[0][0] == own[0]
  {
    var current := Carry(previous, overlap) + own;
    MergeStep(current, [], size, overlap);
    PackedCons(previous, own, [], [], size, overlap);
    assert [Join(current, " ")] + [] == [Join(current, " ")];
    groups := [own] + [];
    FlattenCons(own, []);
  }

  lemma {:induction false} StartChunk(previous: string, own: seq<string>, segments: seq<string>, size: int,
                                      overlap: int)
    returns (groups: seq<seq<string>>)
    requires own != [] && AllTidy(own) && AllTidy(segments)
    requires GrownWithin(Carry(previous, overlap), own, size)
    requires segments != [] && |Join(Carry(previous, overlap) + own, " ")| + 1 + |segments[0]| > size
    ensures Packed(previous, Merge(Carry(previous, overlap) + own, segments, size, overlap), groups, size, overlap)
    ensures Flatten(groups) == own + segments
    ensures groups != [] && groups[0] != [] && groups[0][0] == own[0]
    decreases |segments|, 0
  {
    var current := Carry(previous, overlap) + own;
    var chunk := Join(current, " ");
    var head, tail := [segments[0]], segments[1..];
    var later := Merge(Carry(chunk, overlap) + head, tail, size, overlap);
    MergeStep(current, segments, size, overlap);
    HeadAndTail(segments);
    hide Merge, Packed, Join, Flatten, Carry, AllTidy, GrownWithin;
    OneHasGrown(Carry(chunk, overlap), head, size);
    var rest := MergePacks(chunk, head, tail, size, overlap);
    FlattenCons(own, rest);
    PackedCons(previous, own, later, rest, size, overlap);
    groups := [own] + rest;
  }

  lemma {:induction false} GrowChunk(previous: string, own: seq<string>, segments: seq<string>, size: int, overlap: int)
    returns (groups: seq<seq<string>>)
    requires own != [] && AllTidy(own) && AllTidy(segments)
    requires GrownWithin(Carry(previous, overlap), own, size)
    requires segments != [] && |Join(Carry(previous, overlap) + own, " ")| + 1 + |segments[0]| <= size
    ensures Packed(previous, Merge(Carry(previous, overlap) + own, segments, size, overlap), groups, size, overlap)
    ensures Flatten(groups) == own + segments
    ensures groups != [] && groups[0] != [] && groups[0][0] == own[0]
    decreases |segments|, 0
  {
    GrowStep(Carry(previous, overlap), own, segments, size, overlap);
    var grown, later := own + [segments[0]], segments[1..];
    groups := MergePacks(previous, grown, later, size, overlap);
    MovesOver(own, segments);
  }

  lemma MovesOver(own: seq<string>, segments: seq<string>)
    requires segments != []
    ensures own + [segments[0]] + segments[1..] == own + segments
  {
    assert [segments[0]] + segments[1..] == segments;
  }

  /** Appending a segment that fits: the merge goes on with a longer current chunk. */
  lemma GrowStep(carry: seq<string>, own: seq<string>, segments: seq<string>, size: int, overlap: int)
    requires own != [] && AllTidy(carry + own) && AllTidy(own) && AllTidy(segments) && GrownWithin(carry, own, size)
    requires segments != [] && |Join(carry + own, " ")| + 1 + |segments[0]| <= size
    ensures GrownWithin(carry, own + [segments[0]], size) && AllTidy(own + [segments[0]]) && AllTidy(segments[1..])
    ensures Merge(carry + own, segments, size, overlap)
            == Merge(carry + (own + [segments[0]]), segments[1..], size, overlap)
  {
    var current := carry + own;
    assert current + [segments[0]] == carry + (own + [segments[0]]);
    JoinSnoc(current, segments[0]);
    GrowsByOne(carry, own, segments[0], size);
    MergeStep(current, segments, size, overlap);
  }

  lemma FlattenCons(own: seq<string>, rest: seq<seq<string>>)
    ensures Flatten([own] + rest) == own + Flatten(rest)
  {
    assert ([own] + rest)[1..] == rest;
  }

  /** From an empty start, the chunks pack exactly the given segments. */
  lemma MergePacksAll(segments: seq<string>, size: int, overlap: int)
    returns (groups: seq<seq<string>>)
    requires AllTidy(segments)
    ensures Packed("", Merge([], segments, size, overlap), groups, size, overlap)
    ensures Flatten(groups) == segments
  {
    if segments == [] {
      groups := [];
    } else {
      assert Carry("", overlap) + [segments[0]] == [] + [segments[0]];
      groups := MergePacks("", [segments[0]], segments[1..], size, overlap);
    }
  }

  // ------------------------------------------------------------ nothing is lost

  /** A chunk without the tail of the previous chunk and the space that joins it. */
  function Fresh(previous: string, chunk: string, overlap: int): string {
    var tail := TailOverlap(previous, overlap);
    if tail == "" || |chunk| <= |tail| then chunk else chunk[|tail| + 1..]
  }

  function FreshParts(previous: string, chunks: seq<string>, overlap: int): seq<string>
    decreases |chunks|
  {
    if chunks == [] then []
    else [Fresh(previous, chunks[0], overlap)] + FreshParts(chunks[0], chunks[1..], overlap)
  }

  /** The text that a list of chunks stands for, without the overlaps. */
  function Recovered(chunks: seq<string>, overlap: int): string {
    Join(FreshParts("", chunks, overlap), " ")
  }

  lemma {:induction false} PackedRecovers(previous: string, chunks: seq<string>, groups: seq<seq<string>>, size: int,
                                          overlap: int)
    requires Packed(previous, chunks, groups, size, overlap)
    ensures Join(FreshParts(previous, chunks, overlap), " ") == Join(Flatten(groups), " ")
    ensures chunks != [] ==> Flatten(groups) != []
    decreases |chunks|
  {
    if chunks != [] {
      PackedRecovers(chunks[0], chunks[1..], groups[1..], size, overlap);
      var carry, own := Carry(previous, overlap), groups[0];
      assert Fresh(previous, chunks[0], overlap) == Join(own, " ") by {
        JoinAppend(carry, own, " ");
      }
      var later := FreshParts(chunks[0], chunks[1..], overlap);
      JoinAppend([Join(own, " ")], later, " ");
      JoinAppend(own, Flatten(groups[1..]), " ");
    }
  }

  /**
   Merging loses nothing: dropping from each chunk after the first the tail it
   shares with its predecessor, and joining the rest by spaces, gives the
   cleaned non-empty segments joined by spaces.
   */
  lemma MergingLosesNothing(segments: seq<string>, size: int, overlap: int)
    ensures Recovered(Merge([], Cleaned(segments), size, overlap), overlap) == Join(Cleaned(segments), " ")
  {
    CleanedIsTidy(segments);
    var groups := MergePacksAll(Cleaned(segments), size, overlap);
    PackedRecovers("", Merge([], Cleaned(segments), size, overlap), groups, size, overlap);
  }

  /** The most a chunk may exceed the chunk size by. */
  function Slack(overlap: int): nat {
    if overlap <= 0 then 0 else overlap + 1
  }

  predicate NoneLonger(parts: seq<string>, size: int) {
    forall i :: 0 <= i < |parts| ==> |parts[i]| <= size
  }

  predicate Sized(chunks: seq<string>, most: int) {
    forall i :: 0 <= i < |chunks| ==> 1 <= |chunks[i]| <= most
  }

  lemma SizedCons(chunks: seq<string>, most: int)
    requires chunks != [] && 1 <= |chunks[0]| <= most && Sized(chunks[1..], most)
    ensures Sized(chunks, most)
  {
    assert forall i :: 1 <= i < |chunks| ==> chunks[i] == chunks[1..][i - 1];
  }

  lemma NoneLongerParts(groups: seq<seq<string>>, size: int)
    requires groups != [] && NoneLonger(Flatten(groups), size)
    ensures NoneLonger(groups[0], size) && NoneLonger(Flatten(groups[1..]), size)
  {
    var all, own, rest := Flatten(groups), groups[0], Flatten(groups[1..]);
    assert all == own + rest;
    assert forall i :: 0 <= i < |own| ==> all[i] == own[i];
    assert forall i :: 0 <= i < |rest| ==> all[|own| + i] == rest[i];
  }

  lemma {:induction false} PackedWithin(previous: string, chunks: seq<string>, groups: seq<seq<string>>, size: int,
                                        overlap: int)
    requires Packed(previous, chunks, groups, size, overlap) && NoneLonger(Flatten(groups), size)
    ensures Sized(chunks, size + Slack(overlap))
    decreases |chunks|
  {
    if chunks != [] {
      PackedFirst(previous, chunks, groups, size, overlap);
      NoneLongerParts(groups, size);
      assert |groups[0][0]| <= size;
      hide Packed, GrownWithin, Slack, Carry, Flatten, AllTidy, Sized, NoneLonger;
      FirstChunkSize(Carry(previous, overlap), groups[0], chunks[0], size, overlap);
      PackedWithin(chunks[0], chunks[1..], groups[1..], size, overlap);
      SizedCons(chunks, size + Slack(overlap));
    }
  }

  lemma PackedSizes(previous: string, chunks: seq<string>, groups: seq<seq<string>>, size: int, overlap: int)
    requires Packed(previous, chunks, groups, size, overlap)
    requires forall s :: s in Flatten(groups) ==> |s| <= size
    ensures forall i :: 0 <= i < |chunks| ==> 1 <= |chunks[i]| <= size + Slack(overlap)
  {
    assert NoneLonger(Flatten(groups), size) by {
      forall i | 0 <= i < |Flatten(groups)|
        ensures |Flatten(groups)[i]| <= size
      {
        assert Flatten(groups)[i] in Flatten(groups);
      }
    }
    PackedWithin(previous, chunks, groups, size, overlap);
  }

  lemma PackedFirst(previous: string, chunks: seq<string>, groups: seq<seq<string>>, size: int, overlap: int)
    requires Packed(previous, chunks, groups, size, overlap) && chunks != []
    ensures groups != [] && groups[0] != [] && AllTidy(groups[0]) && AllTidy(Carry(previous, overlap))
    ensures chunks[0] == Join(Carry(previous, overlap) + groups[0], " ")
    ensures GrownWithin(Carry(previous, overlap), groups[0], size)
    ensures |Carry(previous, overlap)| <= 1
    ensures forall i :: 0 <= i < |Carry(previous, overlap)| ==> |Carry(previous, overlap)[i]| <= overlap
    ensures Packed(chunks[0], chunks[1..], groups[1..], size, overlap)
  {
  }

  lemma FirstChunkSize(carry: seq<string>, own: seq<string>, chunk: string, size: int, overlap: int)
    requires own != [] && AllTidy(own) && AllTidy(carry) && chunk == Join(carry + own, " ")
    requires |carry| <= 1 && forall i :: 0 <= i < |carry| ==> |carry[i]| <= overlap
    requires GrownWithin(carry, own, size) && |own[0]| <= size
    ensures 1 <= |chunk| <= size + Slack(overlap)
  {
    JoinTidy(carry + own);
    if |own| == 1 {
      JoinSnoc(carry, own[0]);
      assert own == [own[0]];
    } else {
      assert own[..|own|] == own;
    }
  }

  lemma {:induction false} CleanedShorter(segments: seq<string>, size: int)
    requires forall s :: s in segments ==> |s| <= size
    ensures forall s :: s in Cleaned(segments) ==> |s| <= size
  {
    if segments != [] {
      CleaningKeepsInk(segments[0]);
      CleanedShorter(segments[1..], size);
    }
  }

  lemma {:induction false} CleanedKeepsMarks(segments: seq<string>)
    ensures Filter(Join(Cleaned(segments), " "), Mark) == Filter(Concat(segments), Mark)
  {
    if segments != [] {
      var clean, rest := CleanText(segments[0]), Cleaned(segments[1..]);
      CleanedKeepsMarks(segments[1..]);
      FilterAppend(segments[0], Concat(segments[1..]), Mark);
      assert Filter(clean, Mark) == Filter(segments[0], Mark) by { CleaningKeepsMarks(segments[0]); }
      JoinKeepsMarks(clean, rest);
    }
  }

  lemma JoinKeepsMarks(clean: string, rest: seq<string>)
    ensures Filter(Join(NonEmpty(clean) + rest, " "), Mark) == Filter(clean, Mark) + Filter(Join(rest, " "), Mark)
  {
    JoinAppend(NonEmpty(clean), rest, " ");
    FilterAppend(clean + " ", Join(rest, " "), Mark);
    FilterAppend(clean, " ", Mark);
    FilterNone(" ", Mark);
  }

  // -------------------------------------------------------------- the whole splitter

  function SplitText(text: string, size: nat, overlap: int, separators: seq<string>): seq<string>
    requires size >= 1 && AllSeparators(separators)
  {
    var clean := CleanText(text);
    if clean == "" then []
    else
      Merge([], Cleaned(SplitBySeparators(clean, size, separators)), size, overlap)
  }

  /** `split_text`. */
  method SplitTextInto(text: string, size: nat, overlap: int, separators: seq<string>) returns (chunks: seq<string>)
    requires size >= 1 && AllSeparators(separators)
    ensures chunks == SplitText(text, size, overlap, separators)
  {
    var clean := CleanText(text);
    if clean == "" {
      return [];
    }
    var segments := SplitBySeparatorsInto(clean, size, separators);
    chunks := MergeSegments(segments, size, overlap);
  }

  /** The chunks of every text are packed. */
  lemma SplitTextPacks(text: string, size: nat, overlap: int, separators: seq<string>)
    returns (groups: seq<seq<string>>)
    requires size >= 1 && AllSeparators(separators)
    ensures Packed("", SplitText(text, size, overlap, separators), groups, size, overlap)
  {
    var clean := CleanText(text);
    groups := [];
    if clean != "" {
      var segments := SplitBySeparators(clean, size, separators);
      CleanedIsTidy(segments);
      groups := MergePacksAll(Cleaned(segments), size, overlap);
    }
  }

  /**
   Every chunk is non-empty and at most `size + overlap + 1` long (at most
   `size` when there is no overlap).
   */
  lemma SplitTextSizes(text: string, size: nat, overlap: int, separators: seq<string>)
    requires size >= 1 && AllSeparators(separators)
    ensures forall i :: 0 <= i < |SplitText(text, size, overlap, separators)| ==>
              1 <= |SplitText(text, size, overlap, separators)[i]| <= size + Slack(overlap)
  {
    var clean := CleanText(text);
    if clean != "" {
      var segments := SplitBySeparators(clean, size, separators);
      SegmentSizes(clean, size, separators);
      CleanedShorter(segments, size);
      CleanedIsTidy(segments);
      var groups := MergePacksAll(Cleaned(segments), size, overlap);
      PackedSizes("", Merge([], Cleaned(segments), size, overlap), groups, size, overlap);
    }
  }

  /**
   Every character of the text that is not whitespace, hyphen, soft hyphen or
   separator punctuation survives, in order and exactly once outside overlaps.
   */
  lemma SplitTextKeepsInk(text: string, size: nat, overlap: int, separators: seq<string>)
    requires size >= 1 && AllSeparators(separators)
    ensures Filter(Recovered(SplitText(text, size, overlap, separators), overlap), Ink) == Filter(text, Ink)
  {
    var clean := CleanText(text);
    CleaningKeepsInk(text);
    if clean != "" {
      var segments := SplitBySeparators(clean, size, separators);
      SegmentsKeepInk(clean, size, separators);
      MergingLosesNothing(segments, size, overlap);
      CleanedKeepsMarks(segments);
      FilterTwice(Concat(segments), Mark, Ink);
      FilterTwice(Join(Cleaned(segments), " "), Mark, Ink);
    }
  }

  /** A text with any ink at all yields at least one chunk. */
  lemma InkyTextIsNotLost(text: string, size: nat, overlap: int, separators: seq<string>)
    requires size >= 1 && AllSeparators(separators) && exists i :: 0 <= i < |text| && Ink(text[i])
    ensures SplitText(text, size, overlap, separators) != []
  {
    SplitTextKeepsInk(text, size, overlap, separators);
    if Filter(text, Ink) == "" {
      FilterEmpty(text, Ink);
    }
  }

  // ------------------------------------------------------- what chunks share

  lemma {:induction false} PackedFollows(previous: string, chunks: seq<string>, groups: seq<seq<string>>, size: int,
                                         overlap: int, i: nat)
    requires Packed(previous, chunks, groups, size, overlap) && i + 1 < |chunks|
    ensures Tidy(chunks[i]) && groups[i + 1] != [] && AllTidy(groups[i + 1])
    ensures chunks[i + 1] == Join(Carry(chunks[i], overlap) + groups[i + 1], " ")
    decreases i
  {
    if i == 0 {
      JoinTidy(Carry(previous, overlap) + groups[0]);
      assert Packed(chunks[0], chunks[1..], groups[1..], size, overlap);
    } else {
      PackedFollows(chunks[0], chunks[1..], groups[1..], size, overlap, i - 1);
    }
  }

  /** The end of `c` that starts at its first character other than whitespace among the last `overlap`. */
  predicate TailFrom(c: string, overlap: int, a: int) {
    && 0 < overlap < |c| && |c| - overlap <= a < |c| && !PySpace(c[a])
    && forall k :: |c| - overlap <= k < a ==> PySpace(c[k])
  }

  lemma TailIsEnd(c: string, overlap: int) returns (a: nat)
    requires Tidy(c) && 0 < overlap < |c|
    ensures TailFrom(c, overlap, a) && TailOverlap(c, overlap) == c[a..]
  {
    var start := |c| - overlap;
    var tail := c[start..];
    assert tail[|tail| - 1] == c[|c| - 1];
    var x, y := StripIsSlice(tail, PySpace);
    assert y == |tail| && x < y;
    assert Strip(tail, PySpace) == tail[x..y];
    a := start + x;
    assert Strip(tail, PySpace)[0] == tail[x] == c[a];
    forall k | start <= k < a
      ensures PySpace(c[k])
    {
      assert c[k] == tail[k - start];
    }
    assert tail[x..] == c[a..];
  }

  /**
   Neighbouring chunks overlap: a chunk longer than the overlap hands on its last
   `overlap` characters, without whitespace at their start, and the next chunk
   begins with them and a space.
   */
  lemma ChunksOverlap(text: string, size: nat, overlap: int, separators: seq<string>, i: nat) returns (a: nat)
    requires size >= 1 && AllSeparators(separators) && i + 1 < |SplitText(text, size, overlap, separators)|
    requires 0 < overlap < |SplitText(text, size, overlap, separators)[i]|
    ensures var chunks := SplitText(text, size, overlap, separators);
            TailFrom(chunks[i], overlap, a) && chunks[i][a..] + " " <= chunks[i + 1]
  {
    var chunks := SplitText(text, size, overlap, separators);
    var groups := SplitTextPacks(text, size, overlap, separators);
    hide SplitText;
    PackedFollows("", chunks, groups, size, overlap, i);
    a := TailIsEnd(chunks[i], overlap);
    var tail := chunks[i][a..];
    assert Carry(chunks[i], overlap) == [tail];
    JoinAppend([tail], groups[i + 1], " ");
  }

  // ------------------------------------------------------- separators can vanish

  predicate Only(text: string, c: char) {
    forall i :: 0 <= i < |text| ==> text[i] == c
  }

  predicate HasOther(sep: string, c: char) {
    exists i :: 0 <= i < |sep| && sep[i] != c
  }

  lemma {:induction false} AbsentSeparatorSplit(text: string, sep: string, c: char)
    requires Only(text, c) && HasOther(sep, c)
    ensures Split(text, sep) == [text]
    decreases |text|
  {
    if |text| >= |sep| {
      var i :| 0 <= i < |sep| && sep[i] != c;
      assert text[..|sep|][i] == text[i] == c;
      AbsentSeparatorSplit(text[1..], sep, c);
      assert [text[0]] + text[1..] == text;
    }
  }

  lemma {:induction false} OwnSeparatorSplit(text: string, c: char)
    requires Only(text, c)
    ensures |Split(text, [c])| == |text| + 1
    ensures forall i :: 0 <= i <= |text| ==> Split(text, [c])[i] == ""
    decreases |text|
  {
    if text != "" {
      OwnSeparatorSplit(text[1..], c);
      assert text[..1] == [c];
    }
  }

  lemma {:induction false} EmptyPiecesVanish(pieces: seq<string>, size: nat, separator: string, rest: seq<string>)
    requires size >= 1 && AllSeparators(rest)
    requires forall i :: 0 <= i < |pieces| ==> pieces[i] == ""
    ensures Segments(pieces, size, separator, rest) == []
    decreases |pieces|
  {
    if pieces != [] {
      EmptyPiecesVanish(pieces[1..], size, separator, rest);
    }
  }

  lemma {:induction false} OnlySeparatorsVanish(text: string, size: nat, separators: seq<string>, c: char, k: nat)
    requires size >= 1 && AllSeparators(separators)
    requires Only(text, c) && |text| > size
    requires k < |separators| && separators[k] == [c]
    requires forall i :: 0 <= i < k ==> HasOther(separators[i], c)
    ensures SplitBySeparators(text, size, separators) == []
    decreases k
  {
    if k == 0 {
      OwnSeparatorSplit(text, c);
      EmptyPiecesVanish(Split(text, separators[0]), size, separators[0], separators[1..]);
    } else {
      AbsentSeparatorSplit(text, separators[0], c);
      assert forall i :: 0 <= i < k - 1 ==> separators[1..][i] == separators[i + 1];
      OnlySeparatorsVanish(text, size, separators[1..], c, k - 1);
    }
  }

  /**
   A text made of full stops alone vanishes exactly when it is longer than the
   chunk size, although cleaning leaves it as it is: empty pieces are dropped
   together with their separators.
   */
  lemma FullStopsVanishExactly(text: string, size: nat, overlap: int, separators: seq<string>)
    requires size >= 1 && text != "" && Only(text, '。') && separators == RECURSIVE_SEPARATORS
    ensures CleanText(text) == text && AllSeparators(separators)
    ensures SplitText(text, size, overlap, separators) == [] <==> |text| > size
  {
    RecursiveSeparatorsAreSeparators();
    FullStopsAreClean(text);
    if |text| > size {
      LongFullStopsVanish(text, size, separators);
    } else {
      WholeTextIsOneChunk(text, size, overlap, separators);
    }
  }

  lemma FullStopsAreClean(text: string)
    requires text != "" && Only(text, '。')
    ensures CleanText(text) == text
  {
    HyphenFree(text);
    assert forall i :: 0 <= i < |text| ==> text[i] == '。';
    CleaningPlainText(text, text);
  }

  lemma LongFullStopsVanish(text: string, size: nat, separators: seq<string>)
    requires size >= 1 && |text| > size && Only(text, '。')
    requires separators == RECURSIVE_SEPARATORS && AllSeparators(separators)
    ensures SplitBySeparators(text, size, separators) == []
  {
    assert separators[0][0] != '。' && separators[1][0] != '。' && separators[2][1] != '。';
    OnlySeparatorsVanish(text, size, separators, '。', 3);
  }

  /** A clean text that fits is its own only chunk. */
  lemma WholeTextIsOneChunk(text: string, size: nat, overlap: int, separators: seq<string>)
    requires size >= 1 && AllSeparators(separators) && text != "" && CleanText(text) == text && |text| <= size
    ensures SplitText(text, size, overlap, separators) == [text]
  {
    assert SplitBySeparators(text, size, separators) == [text];
    hide CleanText, SplitBySeparators;
    OnlySegment(text);
    OnlySegmentMerges(text, size, overlap);
  }

  lemma OnlySegment(text: string)
    requires text != "" && CleanText(text) == text
    ensures Cleaned([text]) == [text] && Tidy(text)
  {
    assert [text][1..] == [];
  }

  lemma OnlySegmentMerges(text: string, size: int, overlap: int)
    requires Tidy(text)
    ensures Merge([], [text], size, overlap) == [text]
  {
    assert [text][1..] == [] && [] + [text] == [text];
    assert Merge([], [text], size, overlap) == Merge([text], [], size, overlap);
  }
}
