/**
 The recursive text splitter (backend/retriever.py `split_text`): recursion over
 separators down to a hard split, then greedy merging with overlap carried from
 chunk to chunk. The source needs `chunk_size >= 1`; with less the hard split
 never advances.
 */
module Splitter {
  import opened Text
  import opened Cleaning

  const RECURSIVE_SEPARATORS: seq<string> :=
    ["\n\n", "\n", "。 ", "。", "！", "？", ". ", "; ", "；", "，", ", ", " "]

  /** A usable separator: non-empty and made of whitespace and separator punctuation only. */
  predicate Separator(sep: string) {
    sep != "" && forall i :: 0 <= i < |sep| ==> !Ink(sep[i])
  }

  predicate AllSeparators(separators: seq<string>) {
    forall i :: 0 <= i < |separators| ==> Separator(separators[i])
  }

  /** The source's own list qualifies; everything below holds for any list that does. */
  lemma RecursiveSeparatorsAreSeparators()
    ensures AllSeparators(RECURSIVE_SEPARATORS)
  {
  }

  /** Python's `text.split(sep)`. */
  function Split(text: string, sep: string): (r: seq<string>)
    requires sep != ""
    ensures |r| >= 1
    decreases |text|
  {
    if |text| < |sep| then [text]
    else if text[..|sep|] == sep then [""] + Split(text[|sep|..], sep)
    else
      var rest := Split(text[1..], sep);
      [[text[0]] + rest[0]] + rest[1..]
  }

  lemma {:induction false} SplitThenJoin(text: string, sep: string)
    requires sep != ""
    ensures Join(Split(text, sep), sep) == text
    decreases |text|
  {
    if |text| < |sep| {
    } else if text[..|sep|] == sep {
      SplitThenJoin(text[|sep|..], sep);
      hide Split;
      JoinFirst("", Split(text[|sep|..], sep), sep);
      assert text == "" + sep + text[|sep|..];
    } else {
      SplitThenJoin(text[1..], sep);
      hide Split;
      JoinLonger(text[0], Split(text[1..], sep), sep);
    }
  }

  lemma JoinFirst(part: string, parts: seq<string>, sep: string)
    requires parts != []
    ensures Join([part] + parts, sep) == part + sep + Join(parts, sep)
  {
    assert ([part] + parts)[1..] == parts;
  }

  lemma JoinLonger(c: char, parts: seq<string>, sep: string)
    requires parts != []
    ensures Join([[c] + parts[0]] + parts[1..], sep) == [c] + Join(parts, sep)
  {
    assert ([[c] + parts[0]] + parts[1..])[1..] == parts[1..];
  }

  // -------------------------------------------------------------- hard splitting

  function HardSplit(text: string, size: nat): seq<string>
    requires size >= 1
    decreases |text|
  {
    if text == "" then []
    else if |text| <= size then [text]
    else [text[..size]] + HardSplit(text[size..], size)
  }

  lemma {:induction false} HardSplitPieces(text: string, size: nat)
    requires size >= 1
    ensures Concat(HardSplit(text, size)) == text
    ensures forall i :: 0 <= i < |HardSplit(text, size)| ==> 1 <= |HardSplit(text, size)[i]| <= size
    decreases |text|
  {
    if |text| > size {
      HardSplitPieces(text[size..], size);
      HardSplitFirst(text, size);
    } else if text != "" {
      assert [text][1..] == [];
    }
  }

  lemma HardSplitFirst(text: string, size: nat)
    requires size >= 1 && |text| > size
    ensures var first, rest := text[..size], HardSplit(text[size..], size);
            && HardSplit(text, size) == [first] + rest
            && Concat([first] + rest) == first + Concat(rest)
            && first + text[size..] == text
  {
    ConcatCons(text[..size], HardSplit(text[size..], size));
  }

  /** `_hard_split_text`. */
  method HardSplitText(text: string, size: nat) returns (chunks: seq<string>)
    requires size >= 1
    ensures chunks == HardSplit(text, size)
  {
    chunks := [];
    var start := 0;
    while start < |text|
      invariant 0 <= start <= |text|
      invariant HardSplit(text, size) == chunks + HardSplit(text[start..], size)
      invariant start == |text| ==> text == ""
    {
      var end := if start + size < |text| then start + size else |text|;
      assert text[start..][..end - start] == text[start..end];
      assert text[start..][end - start..] == text[end..];
      chunks := chunks + [text[start..end]];
      if end >= |text| {
        assert text[start..] == text[start..end] && HardSplit(text[start..], size) == [text[start..]];
        break;
      }
      start := end;
    }
  }

  // ------------------------------------------------------- splitting by separators

  function SplitBySeparators(text: string, size: nat, separators: seq<string>): seq<string>
    requires size >= 1 && AllSeparators(separators)
    decreases |separators|, 0
  {
    if |text| <= size then [text]
    else if separators == [] then HardSplit(text, size)
    else
      assert Separator(separators[0]);
      var pieces := Split(text, separators[0]);
      if |pieces| == 1 then SplitBySeparators(text, size, separators[1..])
      else Segments(pieces, size, separators[0], separators[1..])
  }

  /** The pieces with their separators put back; an empty piece drops the separator that follows it. */
  function Segments(pieces: seq<string>, size: nat, separator: string, rest: seq<string>): seq<string>
    requires size >= 1 && AllSeparators(rest)
    decreases |rest|, |pieces| + 1
  {
    if pieces == [] then []
    else if pieces[0] == "" then Segments(pieces[1..], size, separator, rest)
    else
      var segment := Segment(pieces, separator);
      (if |segment| > size then SplitBySeparators(segment, size, rest) else [segment])
      + Segments(pieces[1..], size, separator, rest)
  }

  function Segment(pieces: seq<string>, separator: string): string
    requires pieces != []
  {
    pieces[0] + (if |pieces| > 1 then separator else "")
  }

  /** `_split_by_separators`. */
  method SplitBySeparatorsInto(text: string, size: nat, separators: seq<string>) returns (segments: seq<string>)
    requires size >= 1 && AllSeparators(separators)
    ensures segments == SplitBySeparators(text, size, separators)
    decreases |separators|
  {
    if |text| <= size {
      return [text];
    }
    if |separators| == 0 {
      segments := HardSplitText(text, size);
      return;
    }
    var separator := separators[0];
    var pieces := Split(text, separator);
    if |pieces| == 1 {
      segments := SplitBySeparatorsInto(text, size, separators[1..]);
      return;
    }
    segments := [];
    for index := 0 to |pieces|
      invariant Segments(pieces, size, separator, separators[1..])
                == segments + Segments(pieces[index..], size, separator, separators[1..])
    {
      assert pieces[index..][1..] == pieces[index + 1..];
      var piece := pieces[index];
      if piece != "" {
        var segment := piece + (if index < |pieces| - 1 then separator else "");
        if |segment| > size {
          var parts := SplitBySeparatorsInto(segment, size, separators[1..]);
          segments := segments + parts;
        } else {
          segments := segments + [segment];
        }
      }
    }
  }

  /** Segment lengths lie between 1 and the chunk size, for every non-empty text. */
  lemma {:induction false} SegmentSizes(text: string, size: nat, separators: seq<string>)
    requires text != ""
    requires size >= 1 && AllSeparators(separators)
    ensures forall s :: s in SplitBySeparators(text, size, separators) ==> 1 <= |s| <= size
    decreases |separators|, 0
  {
    if |text| <= size {
    } else if separators == [] {
      HardSplitPieces(text, size);
    } else {
      var pieces := Split(text, separators[0]);
      if |pieces| == 1 {
        SegmentSizes(text, size, separators[1..]);
      } else {
        PieceSizes(pieces, size, separators[0], separators[1..]);
      }
    }
  }

  lemma {:induction false} PieceSizes(pieces: seq<string>, size: nat, separator: string, rest: seq<string>)
    requires size >= 1 && AllSeparators(rest)
    ensures forall s :: s in Segments(pieces, size, separator, rest) ==> 1 <= |s| <= size
    decreases |rest|, |pieces| + 1
  {
    if pieces != [] {
      PieceSizes(pieces[1..], size, separator, rest);
      if pieces[0] != "" && |Segment(pieces, separator)| > size {
        SegmentSizes(Segment(pieces, separator), size, rest);
      }
    }
  }

  /** Splitting keeps every ink character, in order. */
  lemma {:induction false} SegmentsKeepInk(text: string, size: nat, separators: seq<string>)
    requires size >= 1 && AllSeparators(separators)
    ensures Filter(Concat(SplitBySeparators(text, size, separators)), Ink) == Filter(text, Ink)
    decreases |separators|, 0
  {
    if |text| <= size {
      assert [text][1..] == [];
      assert Concat([text]) == text;
    } else if separators == [] {
      HardSplitPieces(text, size);
    } else {
      var pieces := Split(text, separators[0]);
      if |pieces| == 1 {
        SegmentsKeepInk(text, size, separators[1..]);
      } else {
        SplitThenJoin(text, separators[0]);
        PiecesKeepInk(pieces, size, separators[0], separators[1..]);
      }
    }
  }

  lemma {:induction false} PiecesKeepInk(pieces: seq<string>, size: nat, separator: string, rest: seq<string>)
    requires size >= 1 && Separator(separator) && AllSeparators(rest)
    ensures Filter(Concat(Segments(pieces, size, separator, rest)), Ink) == Filter(Join(pieces, separator), Ink)
    decreases |rest|, |pieces| + 1
  {
    if pieces != [] {
      var segment, tail := Segment(pieces, separator), Segments(pieces[1..], size, separator, rest);
      PiecesKeepInk(pieces[1..], size, separator, rest);
      assert Filter(Join(pieces, separator), Ink) == Filter(segment, Ink) + Filter(Concat(tail), Ink) by {
        assert Join(pieces, separator) == segment + Join(pieces[1..], separator);
        FilterAppend(segment, Join(pieces[1..], separator), Ink);
      }
      if pieces[0] == "" {
        FilterNone(segment, Ink);
      } else {
        var head := if |segment| > size then SplitBySeparators(segment, size, rest) else [segment];
        if |segment| > size {
          SegmentsKeepInk(segment, size, rest);
        } else {
          assert [segment][1..] == [];
          assert Concat([segment]) == segment;
        }
        ConcatAppend(head, tail);
        FilterAppend(Concat(head), Concat(tail), Ink);
      }
    }
  }
}
