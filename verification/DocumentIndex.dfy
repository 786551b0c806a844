/**
 What one document change does to the chunk list, and what a list of changes
 does to it: the meaning that the consumer's replays must preserve
 (rag-service/server.py `IndexDocument`, backend/retriever.py `upsert_pdf`
 and `delete_source`). Chunks are seen without their random identifiers.
 */
module DocumentIndex {
  import Text
  import opened Changes

  /** The part of a chunk that parsing a file determines. */
  datatype Passage = Passage(
    content: string,
    page: nat,
    chunkIndex: nat,
    parent: nat,
    parentContent: string,
    parentIndex: nat,
    childIndex: nat)

  /** A chunk up to its random identifiers. */
  datatype Body = Body(source: string, passage: Passage)

  /** A stored chunk: its random identifier, that of its parent, and its body. */
  datatype Chunk = Chunk(id: string, parentId: string, body: Body)

  function Bodies(chunks: seq<Chunk>): (r: seq<Body>)
    ensures |r| == |chunks| && forall i :: 0 <= i < |r| ==> r[i] == chunks[i].body
  {
    seq(|chunks|, i requires 0 <= i < |chunks| => chunks[i].body)
  }

  /** PDF extraction and chunking of the file at a path: a fixed oracle. */
  type Parser = string -> seq<Passage>

  /** Deletion strips the source name (and ignores a blank one); insertion does not. */
  function Touched(c: DocumentChange): set<string> {
    if c.operation != "DELETE" then {c.source}
    else if Text.Strip(c.source, Text.PySpace) == "" then {}
    else {Text.Strip(c.source, Text.PySpace)}
  }

  function Sourced(source: string, passages: seq<Passage>): (r: seq<Body>)
    ensures |r| == |passages|
    ensures forall i :: 0 <= i < |r| ==> r[i] == Body(source, passages[i])
  {
    seq(|passages|, i requires 0 <= i < |passages| => Body(source, passages[i]))
  }

  function Added(c: DocumentChange, parse: Parser): seq<Body> {
    if c.operation == "DELETE" then [] else Sourced(c.source, parse(c.filePath))
  }

  /** The bodies whose source is not in `sources`, in order. */
  function Without(bodies: seq<Body>, sources: set<string>): (r: seq<Body>)
    ensures forall b :: b in r ==> b.source !in sources
  {
    if bodies == [] then []
    else if bodies[0].source in sources then Without(bodies[1..], sources)
    else [bodies[0]] + Without(bodies[1..], sources)
  }

  function Apply(c: DocumentChange, bodies: seq<Body>, parse: Parser): seq<Body> {
    Without(bodies, Touched(c)) + Added(c, parse)
  }

  function ApplyAll(cs: seq<DocumentChange>, bodies: seq<Body>, parse: Parser): seq<Body> {
    if cs == [] then bodies else ApplyAll(cs[1..], Apply(cs[0], bodies, parse), parse)
  }

  function TouchedAll(cs: seq<DocumentChange>): set<string> {
    if cs == [] then {} else Touched(cs[0]) + TouchedAll(cs[1..])
  }

  // ---------------------------------------------------------------- filtering

  lemma {:induction false} WithoutAppend(a: seq<Body>, b: seq<Body>, s: set<string>)
    ensures Without(a + b, s) == Without(a, s) + Without(b, s)
  {
    if a == [] {
      assert a + b == b;
    } else {
      WithoutAppend(a[1..], b, s);
      assert (a + b)[1..] == a[1..] + b && (a + b)[0] == a[0];
    }
  }

  lemma {:induction false} WithoutTwice(a: seq<Body>, s: set<string>, t: set<string>)
    ensures Without(Without(a, s), t) == Without(a, s + t)
  {
    if a != [] {
      WithoutTwice(a[1..], s, t);
      if a[0].source !in s {
        assert ([a[0]] + Without(a[1..], s))[1..] == Without(a[1..], s);
      }
    }
  }

  lemma {:induction false} WithoutAll(a: seq<Body>, s: set<string>)
    requires forall b :: b in a ==> b.source in s
    ensures Without(a, s) == []
  {
    if a != [] {
      WithoutAll(a[1..], s);
    }
  }

  lemma {:induction false} WithoutNone(a: seq<Body>, s: set<string>)
    requires forall b :: b in a ==> b.source !in s
    ensures Without(a, s) == a
  {
    if a != [] {
      WithoutNone(a[1..], s);
    }
  }

  // ------------------------------------------------------------------- replay

  lemma {:induction false} ApplyAllAppend(a: seq<DocumentChange>, b: seq<DocumentChange>, bodies: seq<Body>,
                                          parse: Parser)
    ensures ApplyAll(a + b, bodies, parse) == ApplyAll(b, ApplyAll(a, bodies, parse), parse)
  {
    if a == [] {
      assert a + b == b;
    } else {
      var t := a + b;
      assert t[0] == a[0];
      assert t[1..] == a[1..] + b;
      ApplyAllAppend(a[1..], b, Apply(a[0], bodies, parse), parse);
    }
  }

  lemma {:induction false} TouchedAllAppend(a: seq<DocumentChange>, b: seq<DocumentChange>)
    ensures TouchedAll(a + b) == TouchedAll(a) + TouchedAll(b)
  {
    if a == [] {
      assert a + b == b;
    } else {
      TouchedAllAppend(a[1..], b);
      assert (a + b)[1..] == a[1..] + b && (a + b)[0] == a[0];
    }
  }

  /** One change first, then the removal of the sources in `t`. */
  lemma ApplyThenWithout(c: DocumentChange, bodies: seq<Body>, parse: Parser, t: set<string>)
    ensures Without(Apply(c, bodies, parse), t) == Without(bodies, Touched(c) + t) + Without(Added(c, parse), t)
  {
    WithoutAppend(Without(bodies, Touched(c)), Added(c, parse), t);
    WithoutTwice(bodies, Touched(c), t);
  }

  /** A list of changes removes the sources it touches and appends text that does not depend on the start. */
  lemma {:induction false} ReplayFactors(cs: seq<DocumentChange>, bodies: seq<Body>, parse: Parser)
    ensures ApplyAll(cs, bodies, parse) == Without(bodies, TouchedAll(cs)) + ApplyAll(cs, [], parse)
  {
    if cs == [] {
      WithoutNone(bodies, {});
    } else {
      var c, rest := cs[0], cs[1..];
      var t := TouchedAll(rest);
      ReplayFactors(rest, Apply(c, bodies, parse), parse);
      ReplayFactors(rest, Apply(c, [], parse), parse);
      ApplyThenWithout(c, bodies, parse, t);
      ApplyThenWithout(c, [], parse, t);
      Regroup(Without(bodies, TouchedAll(cs)), Without(Added(c, parse), t), ApplyAll(rest, [], parse));
    }
  }

  lemma Regroup<T>(a: seq<T>, b: seq<T>, c: seq<T>)
    ensures a + b + c == a + ([] + b + c)
  {
  }

  lemma {:induction false} TouchedByMember(cs: seq<DocumentChange>, c: DocumentChange)
    requires c in cs
    ensures Touched(c) <= TouchedAll(cs)
  {
    if cs[0] != c {
      TouchedByMember(cs[1..], c);
    }
  }

  /** Applying one of its changes beforehand makes no difference to a list of changes. */
  lemma AppliedBeforehand(cs: seq<DocumentChange>, c: DocumentChange, bodies: seq<Body>, parse: Parser)
    requires c in cs
    ensures ApplyAll(cs, Apply(c, bodies, parse), parse) == ApplyAll(cs, bodies, parse)
  {
    var t := TouchedAll(cs);
    TouchedByMember(cs, c);
    assert Touched(c) + t == t;
    ApplyThenWithout(c, bodies, parse, t);
    WithoutAll(Added(c, parse), t);
    ReplayAgreesExactly(cs, Apply(c, bodies, parse), bodies, parse);
  }

  /** Everything a replay adds belongs to a source it touches. */
  lemma {:induction false} ReplayAddsTouched(cs: seq<DocumentChange>, parse: Parser)
    ensures forall b :: b in ApplyAll(cs, [], parse) ==> b.source in TouchedAll(cs)
  {
    if cs != [] {
      ReplayAddsTouched(cs[1..], parse);
      ReplayFactors(cs[1..], Apply(cs[0], [], parse), parse);
      forall b | b in Without(Apply(cs[0], [], parse), TouchedAll(cs[1..]))
        ensures b.source in TouchedAll(cs)
      {
        WithoutMember(Apply(cs[0], [], parse), TouchedAll(cs[1..]), b);
      }
    }
  }

  lemma {:induction false} WithoutMember(bodies: seq<Body>, s: set<string>, b: Body)
    ensures b in Without(bodies, s) <==> b in bodies && b.source !in s
  {
    if bodies != [] {
      WithoutMember(bodies[1..], s, b);
    }
  }

  /**
   Two lists agree outside the sources that `cs` touches exactly when replaying
   `cs` on them gives the same result.
   */
  lemma ReplayAgreesExactly(cs: seq<DocumentChange>, a: seq<Body>, b: seq<Body>, parse: Parser)
    ensures ApplyAll(cs, a, parse) == ApplyAll(cs, b, parse)
            <==> Without(a, TouchedAll(cs)) == Without(b, TouchedAll(cs))
  {
    ReplayFactors(cs, a, parse);
    ReplayFactors(cs, b, parse);
    var tail := ApplyAll(cs, [], parse);
    var x, y := Without(a, TouchedAll(cs)), Without(b, TouchedAll(cs));
    if x + tail == y + tail {
      assert |x| == |y|;
      assert x == (x + tail)[..|x|] == (y + tail)[..|y|] == y;
    }
  }

  /**
   Jumping back is harmless: if replaying `late` from here reaches the state
   after `early + mid + late`, so does replaying `mid + late` from here.
   */
  lemma JumpBack(early: seq<DocumentChange>, mid: seq<DocumentChange>, late: seq<DocumentChange>,
                 bodies: seq<Body>, parse: Parser)
    requires ApplyAll(late, bodies, parse) == ApplyAll(early + mid + late, [], parse)
    ensures ApplyAll(mid + late, bodies, parse) == ApplyAll(early + mid + late, [], parse)
  {
    var before := ApplyAll(early, [], parse);
    var after := ApplyAll(mid, before, parse);
    assert ApplyAll(early + mid + late, [], parse) == ApplyAll(late, after, parse) by {
      ApplyAllAppend(early, mid, [], parse);
      ApplyAllAppend(early + mid, late, [], parse);
    }
    assert Without(bodies, TouchedAll(late)) == Without(after, TouchedAll(late)) by {
      ReplayAgreesExactly(late, bodies, after, parse);
    }
    AgreementJumpsBack(mid, TouchedAll(late), bodies, before, parse);
    assert ApplyAll(mid + late, bodies, parse) == ApplyAll(mid + late, before, parse) by {
      TouchedAllAppend(mid, late);
      ReplayAgreesExactly(mid + late, bodies, before, parse);
    }
    assert ApplyAll(mid + late, before, parse) == ApplyAll(late, after, parse) by {
      ApplyAllAppend(mid, late, before, parse);
    }
  }

  lemma AgreementJumpsBack(mid: seq<DocumentChange>, l: set<string>, bodies: seq<Body>, before: seq<Body>,
                           parse: Parser)
    requires Without(bodies, l) == Without(ApplyAll(mid, before, parse), l)
    ensures Without(bodies, TouchedAll(mid) + l) == Without(before, TouchedAll(mid) + l)
  {
    var after := ApplyAll(mid, before, parse);
    var m := TouchedAll(mid);
    var added := ApplyAll(mid, [], parse);
    calc {
      Without(bodies, m + l);
      { WithoutTwice(bodies, l, m); assert l + m == m + l; }
      Without(Without(after, l), m);
      { WithoutTwice(after, l, m); assert l + m == m + l; }
      Without(after, m + l);
      { ReplayFactors(mid, before, parse); }
      Without(Without(before, m) + added, m + l);
      { WithoutAppend(Without(before, m), added, m + l); }
      Without(Without(before, m), m + l) + Without(added, m + l);
      { WithoutTwice(before, m, m + l); assert m + (m + l) == m + l; }
      Without(before, m + l) + Without(added, m + l);
      { ReplayAddsTouched(mid, parse); WithoutAll(added, m + l); }
      Without(before, m + l);
    }
  }

  /** Kafka may deliver a change twice in a row: the second delivery changes nothing. */
  lemma RedeliveryIsIdempotent(c: DocumentChange, bodies: seq<Body>, parse: Parser)
    ensures Apply(c, Apply(c, bodies, parse), parse) == Apply(c, bodies, parse)
  {
    WithoutAppend(Without(bodies, Touched(c)), Added(c, parse), Touched(c));
    WithoutTwice(bodies, Touched(c), Touched(c));
    assert Touched(c) + Touched(c) == Touched(c);
    WithoutAll(Added(c, parse), Touched(c));
  }

  // ---------------------------------------------------------- last writer wins

  /** The chunks of one source. */
  function View(bodies: seq<Body>, source: string): seq<Body> {
    if bodies == [] then []
    else if bodies[0].source == source then [bodies[0]] + View(bodies[1..], source)
    else View(bodies[1..], source)
  }

  lemma {:induction false} ViewAppend(a: seq<Body>, b: seq<Body>, source: string)
    ensures View(a + b, source) == View(a, source) + View(b, source)
  {
    if a == [] {
      assert a + b == b;
    } else {
      ViewAppend(a[1..], b, source);
      assert (a + b)[1..] == a[1..] + b && (a + b)[0] == a[0];
    }
  }

  lemma {:induction false} ViewWithout(bodies: seq<Body>, s: set<string>, source: string)
    ensures View(Without(bodies, s), source) == if source in s then [] else View(bodies, source)
  {
    if bodies != [] {
      ViewWithout(bodies[1..], s, source);
      if bodies[0].source !in s {
        assert ([bodies[0]] + Without(bodies[1..], s))[1..] == Without(bodies[1..], s);
      }
    }
  }

  lemma {:induction false} ViewWhole(bodies: seq<Body>, source: string)
    requires forall b :: b in bodies ==> b.source == source
    ensures View(bodies, source) == bodies
  {
    if bodies != [] {
      ViewWhole(bodies[1..], source);
    }
  }

  lemma {:induction false} ViewEmpty(bodies: seq<Body>, source: string)
    requires forall b :: b in bodies ==> b.source != source
    ensures View(bodies, source) == []
  {
    if bodies != [] {
      ViewEmpty(bodies[1..], source);
    }
  }

  /**
   After any list of changes, the chunks of a source are what its last change
   left: nothing after a deletion, the parsed file otherwise, and the initial
   chunks if no change touched it.
   */
  lemma {:induction false} LastWriterWins(cs: seq<DocumentChange>, bodies: seq<Body>, parse: Parser, source: string,
                                          last: int)
    requires -1 <= last < |cs|
    requires forall i :: last < i < |cs| ==> source !in Touched(cs[i])
    requires last >= 0 ==> source in Touched(cs[last])
    ensures View(ApplyAll(cs, bodies, parse), source)
            == if last == -1 then View(bodies, source)
               else if cs[last].operation == "DELETE" then []
               else Sourced(source, parse(cs[last].filePath))
  {
    if cs != [] {
      var n := |cs| - 1;
      var init, c := cs[..n], cs[n];
      assert cs == init + [c];
      ApplyAllAppend(init, [c], bodies, parse);
      var before := ApplyAll(init, bodies, parse);
      ViewAppend(Without(before, Touched(c)), Added(c, parse), source);
      ViewWithout(before, Touched(c), source);
      if last == n {
        ViewWhole(Added(c, parse), source);
      } else {
        LastWriterWins(init, bodies, parse, source, last);
        ViewEmpty(Added(c, parse), source);
      }
    }
  }

  /**
   Deleting a source undoes having inserted it exactly when the name carries
   no surrounding whitespace: deletion strips the name and insertion does not.
   */
  lemma DeleteUndoesInsertExactly(ins: DocumentChange, del: DocumentChange, bodies: seq<Body>, parse: Parser)
    requires ins.operation != "DELETE" && del.operation == "DELETE" && ins.source == del.source != ""
    requires parse(ins.filePath) != []
    ensures View(ApplyAll([ins, del], bodies, parse), ins.source) == []
            <==> Text.Strip(ins.source, Text.PySpace) == ins.source
  {
    var cs := [ins, del];
    if Text.Strip(ins.source, Text.PySpace) == ins.source {
      LastWriterWins(cs, bodies, parse, ins.source, 1);
    } else {
      LastWriterWins(cs, bodies, parse, ins.source, 0);
    }
  }
}
