/**
 What becomes of the separators at which a text is split (backend/retriever.py
 `_split_by_separators`): each is put back behind its piece, except behind an
 empty piece, which drops it.
 */
module Separators {
  import opened Text
  import opened Cleaning
  import opened Splitter
  import opened Merging

  // ------------------------------------------------------------------- one level

  /** The non-empty pieces with their separators. */
  function Terminated(pieces: seq<string>, sep: string): seq<string> {
    if pieces == [] then []
    else (if pieces[0] == "" then [] else [Segment(pieces, sep)]) + Terminated(pieces[1..], sep)
  }

  /**
   The text, read from left to right, without the separators that stand at its
   start or directly behind another one; `bare` says that we are at such a place.
   */
  function Condensed(text: string, sep: string, bare: bool): string
    requires sep != ""
    decreases |text|
  {
    if |text| < |sep| then text
    else if text[..|sep|] == sep then (if bare then "" else sep) + Condensed(text[|sep|..], sep, true)
    else [text[0]] + Condensed(text[1..], sep, false)
  }

  lemma OnePiece(text: string, sep: string)
    ensures Concat(Terminated([text], sep)) == text && Segment([text], sep) == text
    ensures Concat(Terminated([text][1..], sep)) == ""
  {
    assert [text][1..] == [];
    assert [text] + [] == [text];
  }

  lemma EmptyPieceFirst(pieces: seq<string>, sep: string)
    requires pieces != []
    ensures Terminated([""] + pieces, sep) == Terminated(pieces, sep)
    ensures Segment([""] + pieces, sep) == sep && ([""] + pieces)[1..] == pieces
  {
  }

  lemma LongerPieceFirst(c: char, pieces: seq<string>, sep: string)
    requires pieces != []
    ensures var longer := [[c] + pieces[0]] + pieces[1..];
            && Segment(longer, sep) == [c] + Segment(pieces, sep) && longer[1..] == pieces[1..]
            && Concat(Terminated(longer, sep)) == [c] + Segment(pieces, sep) + Concat(Terminated(pieces[1..], sep))
  {
    var longer := [[c] + pieces[0]] + pieces[1..];
    assert longer[1..] == pieces[1..];
    ConcatCons(Segment(longer, sep), Terminated(pieces[1..], sep));
  }

  /** One level of splitting keeps the text but for the separators that follow an empty piece. */
  lemma {:induction false} LevelKeepsText(text: string, sep: string)
    requires sep != ""
    ensures Condensed(text, sep, true) == Concat(Terminated(Split(text, sep), sep))
    ensures var pieces := Split(text, sep);
            Condensed(text, sep, false) == Segment(pieces, sep) + Concat(Terminated(pieces[1..], sep))
    decreases |text|
  {
    if |text| < |sep| {
      OnePiece(text, sep);
    } else if text[..|sep|] == sep {
      LevelKeepsText(text[|sep|..], sep);
      EmptyPieceFirst(Split(text[|sep|..], sep), sep);
    } else {
      LevelKeepsText(text[1..], sep);
      LongerPieceFirst(text[0], Split(text[1..], sep), sep);
    }
  }

  predicate EndsWith(s: string, end: string) {
    |s| >= |end| && s[|s| - |end|..] == end
  }

  lemma TerminatedCons(pieces: seq<string>, sep: string)
    requires pieces != []
    ensures var level, later := Terminated(pieces, sep), Terminated(pieces[1..], sep);
            if pieces[0] == "" then level == later
            else |level| == |later| + 1 && level[0] == Segment(pieces, sep) && level[1..] == later
                 && forall k :: 0 <= k < |later| ==> level[k + 1] == later[k]
  {
  }

  /** Every segment of a level but the last ends with its separator, and none is empty. */
  lemma {:induction false} SegmentsEndWithSeparator(pieces: seq<string>, sep: string)
    ensures var level := Terminated(pieces, sep);
            && (forall k :: 0 <= k < |level| - 1 ==> EndsWith(level[k], sep))
            && (forall k :: 0 <= k < |level| ==> level[k] != "")
    ensures pieces != [] && pieces[|pieces| - 1] == "" ==>
              forall k :: 0 <= k < |Terminated(pieces, sep)| ==> EndsWith(Terminated(pieces, sep)[k], sep)
  {
    if pieces != [] {
      SegmentsEndWithSeparator(pieces[1..], sep);
      TerminatedCons(pieces, sep);
      var level, later := Terminated(pieces, sep), Terminated(pieces[1..], sep);
      hide Terminated;
      assert |pieces| > 1 ==> EndsWith(Segment(pieces, sep), sep);
      forall k | 0 <= k < |level|
        ensures level[k] != ""
        ensures k < |level| - 1 || (|pieces| > 1 && pieces[|pieces| - 1] == "") ==> EndsWith(level[k], sep)
      {
        if |pieces| == 1 {
          NoPieces(sep);
          assert pieces[1..] == [];
        } else if pieces[0] != "" && k > 0 {
          assert level[k] == later[k - 1];
        }
      }
    }
  }

  lemma NoPieces(sep: string)
    ensures Terminated([], sep) == []
  {
  }

  // ------------------------------------------------------------------- all levels

  /** What splitting leaves of a text: at each level, separators behind empty pieces go. */
  function Spared(text: string, size: nat, separators: seq<string>): string
    requires AllSeparators(separators)
    decreases |separators|, 0
  {
    if |text| <= size || separators == [] then text
    else
      assert Separator(separators[0]);
      SparedAll(Terminated(Split(text, separators[0]), separators[0]), size, separators[1..])
  }

  function SparedAll(segments: seq<string>, size: nat, rest: seq<string>): string
    requires AllSeparators(rest)
    decreases |rest|, |segments| + 1
  {
    if segments == [] then "" else Spared(segments[0], size, rest) + SparedAll(segments[1..], size, rest)
  }

  /** The segments, put together again, are what splitting leaves of the text. */
  lemma {:induction false} SplitKeepsText(text: string, size: nat, separators: seq<string>)
    requires size >= 1 && AllSeparators(separators)
    ensures Concat(SplitBySeparators(text, size, separators)) == Spared(text, size, separators)
    decreases |separators|, 0
  {
    if |text| <= size {
      assert [text][1..] == [];
    } else if separators == [] {
      HardSplitPieces(text, size);
    } else {
      var pieces := Split(text, separators[0]);
      if |pieces| == 1 {
        UnsplitText(text, size, separators);
        SplitKeepsText(text, size, separators[1..]);
      } else {
        SegmentsKeepText(pieces, size, separators[0], separators[1..]);
      }
    }
  }

  lemma UnsplitText(text: string, size: nat, separators: seq<string>)
    requires size >= 1 && AllSeparators(separators) && separators != [] && |text| > size
    requires |Split(text, separators[0])| == 1
    ensures Spared(text, size, separators) == Spared(text, size, separators[1..])
  {
    var sep := separators[0];
    SplitThenJoin(text, sep);
    assert Split(text, sep) == [text];
    OnlyLevel(text, sep);
    var level := Terminated([text], sep);
    assert level[1..] == [];
    assert SparedAll(level[1..], size, separators[1..]) == "";
  }

  lemma {:induction false} SegmentsKeepText(pieces: seq<string>, size: nat, sep: string, rest: seq<string>)
    requires size >= 1 && AllSeparators(rest)
    ensures Concat(Segments(pieces, size, sep, rest)) == SparedAll(Terminated(pieces, sep), size, rest)
    decreases |rest|, |pieces| + 1
  {
    if pieces != [] {
      SegmentsKeepText(pieces[1..], size, sep, rest);
      if pieces[0] != "" {
        var segment, later := Segment(pieces, sep), Segments(pieces[1..], size, sep, rest);
        TerminatedCons(pieces, sep);
        if |segment| > size {
          SplitKeepsText(segment, size, rest);
          ConcatAppend(SplitBySeparators(segment, size, rest), later);
        } else {
          ConcatCons(segment, later);
          assert Spared(segment, size, rest) == segment;
        }
      } else {
        TerminatedCons(pieces, sep);
      }
    }
  }

  /** A segment that fits is kept; a longer one is split by the separators that are left. */
  function Refined(segments: seq<string>, size: nat, rest: seq<string>): seq<string>
    requires size >= 1 && AllSeparators(rest)
  {
    if segments == [] then []
    else (if |segments[0]| <= size then [segments[0]] else SplitBySeparators(segments[0], size, rest))
         + Refined(segments[1..], size, rest)
  }

  lemma {:induction false} SegmentsAreRefined(pieces: seq<string>, size: nat, sep: string, rest: seq<string>)
    requires size >= 1 && AllSeparators(rest)
    ensures Segments(pieces, size, sep, rest) == Refined(Terminated(pieces, sep), size, rest)
  {
    if pieces != [] {
      SegmentsAreRefined(pieces[1..], size, sep, rest);
      TerminatedCons(pieces, sep);
    }
  }

  /**
   A text that is too long is cut behind the separators of the first kind, and only
   segments that are still too long are cut further; characters are counted off
   only where no separator is left.
   */
  lemma SplitsLevelByLevel(text: string, size: nat, separators: seq<string>)
    requires size >= 1 && AllSeparators(separators) && |text| > size
    ensures separators != [] ==>
              && Separator(separators[0])
              && SplitBySeparators(text, size, separators)
                 == Refined(Terminated(Split(text, separators[0]), separators[0]), size, separators[1..])
    ensures separators == [] ==>
              forall i :: 0 <= i < |SplitBySeparators(text, size, separators)| - 1 ==>
                |SplitBySeparators(text, size, separators)[i]| == size
  {
    if separators == [] {
      HardSplitSizes(text, size);
    } else {
      var sep := separators[0];
      assert Separator(sep);
      var pieces := Split(text, sep);
      if |pieces| == 1 {
        SplitThenJoin(text, sep);
        assert pieces == [text];
        OnlyLevel(text, sep);
        OnlyRefined(text, size, separators[1..]);
      } else {
        SegmentsAreRefined(pieces, size, sep, separators[1..]);
      }
    }
  }

  lemma OnlyLevel(text: string, sep: string)
    requires text != ""
    ensures Terminated([text], sep) == [text]
  {
    var one := [text];
    assert one[1..] == [];
    TerminatedCons(one, sep);
    OnePiece(text, sep);
    NoPieces(sep);
  }

  lemma OnlyRefined(text: string, size: nat, rest: seq<string>)
    requires size >= 1 && AllSeparators(rest) && |text| > size
    ensures Refined([text], size, rest) == SplitBySeparators(text, size, rest)
  {
    var one := [text];
    assert one[1..] == [] && Refined([], size, rest) == [];
  }

  lemma {:induction false} HardSplitSizes(text: string, size: nat)
    requires size >= 1
    ensures forall i :: 0 <= i < |HardSplit(text, size)| - 1 ==> |HardSplit(text, size)[i]| == size
    decreases |text|
  {
    if |text| > size {
      HardSplitSizes(text[size..], size);
    }
  }

  // ------------------------------------------------------------------- when nothing is dropped

  /** Only the last piece may be empty. */
  predicate NoEmptyPiece(pieces: seq<string>) {
    forall k :: 0 <= k < |pieces| - 1 ==> pieces[k] != ""
  }

  /** No split on the way yields an empty piece before its last one. */
  predicate Whole(text: string, size: nat, separators: seq<string>)
    requires AllSeparators(separators)
    decreases |separators|, 0
  {
    |text| <= size || separators == [] ||
    (assert Separator(separators[0]);
     && NoEmptyPiece(Split(text, separators[0]))
     && WholeAll(Terminated(Split(text, separators[0]), separators[0]), size, separators[1..]))
  }

  predicate WholeAll(segments: seq<string>, size: nat, rest: seq<string>)
    requires AllSeparators(rest)
    decreases |rest|, |segments| + 1
  {
    segments == [] || (Whole(segments[0], size, rest) && WholeAll(segments[1..], size, rest))
  }

  lemma NoEmptyPieceCons(pieces: seq<string>)
    requires |pieces| > 1
    ensures NoEmptyPiece(pieces) <==> pieces[0] != "" && NoEmptyPiece(pieces[1..])
  {
    var rest := pieces[1..];
    assert forall k :: 0 <= k < |rest| ==> rest[k] == pieces[k + 1];
    if pieces[0] != "" && NoEmptyPiece(rest) {
      forall k | 0 <= k < |pieces| - 1
        ensures pieces[k] != ""
      {
        assert k > 0 ==> pieces[k] == rest[k - 1];
      }
    }
  }

  /** A level is the whole text or shorter: shorter exactly if a piece before the last one is empty. */
  lemma {:induction false} LevelLength(pieces: seq<string>, sep: string)
    requires pieces != [] && sep != ""
    ensures var kept := Concat(Terminated(pieces, sep));
            if NoEmptyPiece(pieces) then kept == Join(pieces, sep) else |kept| < |Join(pieces, sep)|
  {
    if |pieces| == 1 {
      assert pieces == [pieces[0]];
      OnePiece(pieces[0], sep);
    } else {
      LevelLength(pieces[1..], sep);
      NoEmptyPieceCons(pieces);
      TerminatedCons(pieces, sep);
      if pieces[0] != "" {
        ConcatCons(Segment(pieces, sep), Terminated(pieces[1..], sep));
      }
    }
  }

  lemma {:induction false} SparedLength(text: string, size: nat, separators: seq<string>)
    requires AllSeparators(separators)
    ensures if Whole(text, size, separators) then Spared(text, size, separators) == text
            else |Spared(text, size, separators)| < |text|
    decreases |separators|, 0
  {
    if |text| > size && separators != [] {
      var sep := separators[0];
      assert Separator(sep);
      SplitThenJoin(text, sep);
      LevelLength(Split(text, sep), sep);
      SparedAllLength(Terminated(Split(text, sep), sep), size, separators[1..]);
    }
  }

  lemma {:induction false} SparedAllLength(segments: seq<string>, size: nat, rest: seq<string>)
    requires AllSeparators(rest)
    ensures if WholeAll(segments, size, rest) then SparedAll(segments, size, rest) == Concat(segments)
            else |SparedAll(segments, size, rest)| < |Concat(segments)|
    decreases |rest|, |segments| + 1
  {
    if segments != [] {
      SparedLength(segments[0], size, rest);
      SparedAllLength(segments[1..], size, rest);
    }
  }

  /** Splitting loses no character at all exactly if no split on the way yields an empty piece before its last one. */
  lemma SplitIsLosslessExactly(text: string, size: nat, separators: seq<string>)
    requires size >= 1 && AllSeparators(separators)
    ensures Concat(SplitBySeparators(text, size, separators)) == text <==> Whole(text, size, separators)
  {
    SplitKeepsText(text, size, separators);
    SparedLength(text, size, separators);
  }

  // ------------------------------------------------------------------- the whole splitter

  /**
   Every mark of a text, punctuation included, reaches the chunks in order and
   exactly once outside overlaps, but for the separators that follow an empty piece.
   */
  lemma SplitTextKeepsMarks(text: string, size: nat, overlap: int, separators: seq<string>)
    requires size >= 1 && AllSeparators(separators)
    ensures Filter(Recovered(SplitText(text, size, overlap, separators), overlap), Mark)
            == Filter(Spared(CleanText(text), size, separators), Mark)
    ensures Whole(CleanText(text), size, separators) ==>
              Filter(Recovered(SplitText(text, size, overlap, separators), overlap), Mark) == Filter(text, Mark)
  {
    var clean := CleanText(text);
    CleaningKeepsMarks(text);
    SparedLength(clean, size, separators);
    if clean != "" {
      var segments := SplitBySeparators(clean, size, separators);
      SplitKeepsText(clean, size, separators);
      MergingLosesNothing(segments, size, overlap);
      CleanedKeepsMarks(segments);
    }
  }
}
