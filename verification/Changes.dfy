/**
 Document changes carried by Kafka records: decoding and validation
 (sync-service/internal/document.go).
 */
module Changes {
  import opened Options
  import opened Text

  datatype DocumentChange = DocumentChange(
    documentId: string,
    operation: string,
    timestamp: int,
    source: string,
    filePath: string)

  datatype CanalRow = CanalRow(id: string, documentId: string, source: string, filePath: string)

  datatype Envelope = Envelope(data: seq<CanalRow>, kind: string, es: int, ts: int, isDdl: bool)

  /**
   A record's bytes, seen through the two `json.Unmarshal` calls that read them.
   A well-formed text may still fail to fit either struct, hence the options. A
   record without a value (a tombstone) does not decode either, but a nil raw
   message is written as `null`, so it can be published where malformed bytes cannot.
   */
  datatype Payload =
    | Tombstone
    | Malformed
    | Json(change: Option<DocumentChange>, envelope: Option<Envelope>)

  datatype DecodeError =
    | InvalidJson
    | InvalidCanalJson
    | MessageIgnored
    | MissingIdentity
    | UnsupportedOperation
    | MissingFilePath

  datatype Result<+T> = Ok(value: T) | Err(error: DecodeError)

  /**
   `unicode.ToUpper`, exact on every character whose upper case is an ASCII
   letter; other characters can never complete one of the three operations.
   */
  function Upper(c: char): char {
    if 'a' <= c <= 'z' then c - 'a' + 'A'
    else if c == '\U{0131}' then 'I'
    else if c == '\U{017F}' then 'S'
    else c
  }

  function ToUpper(s: string): (r: string)
    ensures |r| == |s| && forall i :: 0 <= i < |s| ==> r[i] == Upper(s[i])
  {
    seq(|s|, i requires 0 <= i < |s| => Upper(s[i]))
  }

  function NormalOperation(op: string): string {
    ToUpper(Strip(op, GoSpace))
  }

  function Normalise(c: DocumentChange): DocumentChange {
    c.(operation := NormalOperation(c.operation))
  }

  predicate KnownOperation(op: string) {
    op == "INSERT" || op == "UPDATE" || op == "DELETE"
  }

  /** What a change must satisfy for the consumer to act on it. */
  predicate Acceptable(c: DocumentChange) {
    && c.documentId != "" && c.source != ""
    && KnownOperation(NormalOperation(c.operation))
    && (NormalOperation(c.operation) != "DELETE" ==> c.filePath != "")
  }

  /** The reason the source reports when a change is not acceptable. */
  function Rejection(c: DocumentChange): DecodeError
    requires !Acceptable(c)
  {
    if c.documentId == "" || c.source == "" then MissingIdentity
    else if !KnownOperation(NormalOperation(c.operation)) then UnsupportedOperation
    else MissingFilePath
  }

  /** The change a Canal row stands for, before validation. */
  function RowChange(e: Envelope, row: CanalRow): DocumentChange {
    DocumentChange(
      if row.documentId == "" then row.id else row.documentId,
      e.kind,
      if e.es == 0 then e.ts else e.es,
      row.source,
      row.filePath)
  }

  predicate Compact(p: Payload) {
    p.Json? && p.change.Some? && (p.change.value.documentId != "" || p.change.value.operation != "")
  }

  /** The candidate changes of a payload, in order, or the error that stops it before validation. */
  function Candidates(p: Payload): Result<seq<DocumentChange>> {
    if !p.Json? || p.change.None? then Err(InvalidJson)
    else if Compact(p) then Ok([p.change.value])
    else if p.envelope.None? then Err(InvalidCanalJson)
    else if p.envelope.value.isDdl || p.envelope.value.data == [] then Err(MessageIgnored)
    else Ok(Rows(p.envelope.value))
  }

  function Rows(e: Envelope): (cs: seq<DocumentChange>)
    ensures |cs| == |e.data| && forall i :: 0 <= i < |cs| ==> cs[i] == RowChange(e, e.data[i])
  {
    seq(|e.data|, i requires 0 <= i < |e.data| => RowChange(e, e.data[i]))
  }

  /** The index of the first candidate that is not acceptable, or the length if there is none. */
  function FirstBad(cs: seq<DocumentChange>): (n: nat)
    ensures n <= |cs|
    ensures forall i :: 0 <= i < n ==> Acceptable(cs[i])
    ensures n < |cs| ==> !Acceptable(cs[n])
  {
    if cs == [] || !Acceptable(cs[0]) then 0 else
      var n := FirstBad(cs[1..]);
      OneMoreAcceptable(cs, n);
      n + 1
  }

  lemma OneMoreAcceptable(cs: seq<DocumentChange>, n: nat)
    requires cs != [] && Acceptable(cs[0]) && n < |cs|
    requires forall i :: 0 <= i < n ==> Acceptable(cs[1..][i])
    ensures forall i :: 0 <= i < n + 1 ==> Acceptable(cs[i])
    ensures n + 1 < |cs| ==> cs[1..][n] == cs[n + 1]
  {
    hide Acceptable;
    forall i | 0 <= i < n + 1
      ensures Acceptable(cs[i])
    {
      assert i > 0 ==> cs[1..][i - 1] == cs[i];
    }
  }

  function NormaliseAll(cs: seq<DocumentChange>): (r: seq<DocumentChange>)
    ensures |r| == |cs| && forall i :: 0 <= i < |cs| ==> r[i] == Normalise(cs[i])
  {
    seq(|cs|, i requires 0 <= i < |cs| => Normalise(cs[i]))
  }

  lemma NormaliseAllSnoc(cs: seq<DocumentChange>, i: nat)
    requires i < |cs|
    ensures NormaliseAll(cs[..i + 1]) == NormaliseAll(cs[..i]) + [Normalise(cs[i])]
  {
  }

  /** All or nothing: every candidate normalised, or the first rejection. */
  function Validated(cs: seq<DocumentChange>): Result<seq<DocumentChange>> {
    var bad := FirstBad(cs);
    if bad < |cs| then Err(Rejection(cs[bad])) else Ok(NormaliseAll(cs))
  }

  lemma ValidationStops(cs: seq<DocumentChange>, i: nat)
    requires i < |cs| && i <= FirstBad(cs)
    ensures !Acceptable(cs[i]) ==> Validated(cs) == Err(Rejection(cs[i]))
    ensures Acceptable(cs[i]) ==> i + 1 <= FirstBad(cs)
  {
    hide Acceptable;
    var bad := FirstBad(cs);
    assert bad == i ==> !Acceptable(cs[bad]);
  }

  function Decoded(p: Payload): Result<seq<DocumentChange>> {
    match Candidates(p)
    case Err(e) => Err(e)
    case Ok(cs) => Validated(cs)
  }

  /** The consumer's mutable view of one change while it is being validated. */
  class ChangeRecord {
    var documentId: string
    var operation: string
    var timestamp: int
    var source: string
    var filePath: string

    function Value(): DocumentChange
      reads this
    {
      DocumentChange(documentId, operation, timestamp, source, filePath)
    }

    constructor (c: DocumentChange)
      ensures Value() == c
    {
      documentId, operation, timestamp, source, filePath :=
        c.documentId, c.operation, c.timestamp, c.source, c.filePath;
    }

    /** `validateDocumentChange`: rewrites the operation even when it then rejects the change. */
    method Validate() returns (error: Option<DecodeError>)
      modifies this`operation
      ensures Value() == Normalise(old(Value()))
      ensures error.None? <==> Acceptable(old(Value()))
      ensures error.Some? ==> error.value == Rejection(old(Value()))
    {
      operation := ToUpper(Strip(operation, GoSpace));
      if documentId == "" || source == "" {
        return Some(MissingIdentity);
      }
      if operation != "INSERT" && operation != "UPDATE" && operation != "DELETE" {
        return Some(UnsupportedOperation);
      }
      if operation != "DELETE" && filePath == "" {
        return Some(MissingFilePath);
      }
      return None;
    }
  }

  method RecordOfRow(envelope: Envelope, row: CanalRow) returns (change: ChangeRecord)
    ensures fresh(change) && change.Value() == RowChange(envelope, row)
  {
    change := new ChangeRecord(DocumentChange(
      if row.documentId == "" then row.id else row.documentId, envelope.kind, envelope.es, row.source, row.filePath));
    if change.timestamp == 0 {
      change.timestamp := envelope.ts;
    }
  }

  /** The loop of `decodeDocumentChanges` over the rows of a Canal envelope. */
  method ValidateRows(envelope: Envelope) returns (r: Result<seq<DocumentChange>>)
    ensures r == Validated(Rows(envelope))
  {
    var changes: seq<DocumentChange> := [];
    ghost var cs := Rows(envelope);
    for i := 0 to |envelope.data|
      invariant |changes| == i <= FirstBad(cs)
      invariant changes == NormaliseAll(cs[..i])
    {
      var change := RecordOfRow(envelope, envelope.data[i]);
      ValidationStops(cs, i);
      var error := change.Validate();
      if error.Some? {
        return Err(error.value);
      }
      NormaliseAllSnoc(cs, i);
      changes := changes + [change.Value()];
    }
    assert cs[..|envelope.data|] == cs;
    return Ok(changes);
  }

  /** `decodeDocumentChanges`. */
  method DecodeDocumentChanges(p: Payload) returns (r: Result<seq<DocumentChange>>)
    ensures r == Decoded(p)
  {
    if !p.Json? || p.change.None? {
      return Err(InvalidJson);
    }
    if p.change.value.documentId != "" || p.change.value.operation != "" {
      var change := new ChangeRecord(p.change.value);
      var error := change.Validate();
      if error.Some? {
        return Err(error.value);
      }
      assert NormaliseAll([p.change.value]) == [change.Value()];
      return Ok([change.Value()]);
    }
    if p.envelope.None? {
      return Err(InvalidCanalJson);
    }
    var envelope := p.envelope.value;
    if envelope.isDdl || |envelope.data| == 0 {
      return Err(MessageIgnored);
    }
    r := ValidateRows(envelope);
  }

  /**
   Decoding succeeds exactly when every candidate is acceptable; each decoded
   change is then fit to apply, and validating it again would change nothing.
   */
  lemma DecodingIsAllOrNothing(p: Payload)
    ensures Decoded(p).Ok? <==> Candidates(p).Ok? && forall c :: c in Candidates(p).value ==> Acceptable(c)
    ensures Decoded(p).Ok? ==>
              && |Decoded(p).value| == |Candidates(p).value| >= 1
              && forall i :: 0 <= i < |Decoded(p).value| ==>
                var c := Decoded(p).value[i];
                Acceptable(c) && KnownOperation(c.operation) && Normalise(c) == c
                && c == Normalise(Candidates(p).value[i])
  {
    if Decoded(p).Ok? {
      var cs := Candidates(p).value;
      forall i | 0 <= i < |cs|
        ensures var c := Decoded(p).value[i]; Acceptable(c) && KnownOperation(c.operation) && Normalise(c) == c
      {
        assert Acceptable(cs[i]);
        NormalOperationIdempotent(cs[i].operation);
      }
    }
  }

  lemma NormalOperationIdempotent(op: string)
    requires KnownOperation(NormalOperation(op))
    ensures NormalOperation(NormalOperation(op)) == NormalOperation(op)
  {
    var up := NormalOperation(op);
    assert Strip(up, GoSpace) == up;
    assert forall i :: 0 <= i < |up| ==> Upper(up[i]) == up[i];
  }

  /** Case and surrounding whitespace of an operation do not matter. */
  lemma SpellingDoesNotMatter(lead: string, spelled: string, trail: string, op: string)
    requires KnownOperation(op) && |spelled| == |op|
    requires forall i :: 0 <= i < |op| ==> spelled[i] == op[i] || spelled[i] == op[i] - 'A' + 'a'
    requires forall i :: 0 <= i < |lead| ==> GoSpace(lead[i])
    requires forall i :: 0 <= i < |trail| ==> GoSpace(trail[i])
    ensures NormalOperation(lead + spelled + trail) == op
  {
    assert 'A' <= op[0] <= 'Z' && 'A' <= op[|op| - 1] <= 'Z';
    StripAround(lead, spelled, trail, GoSpace);
    assert forall i :: 0 <= i < |op| ==> 'A' <= op[i] <= 'Z';
    assert ToUpper(spelled) == op;
  }

  /**
   What decoding yields, field by field: from an envelope one change per row, which
   falls back to the row's own id and to the later time stamp; from a compact event
   the event itself. Only the operation is rewritten.
   */
  lemma DecodedFields(p: Payload, i: nat)
    requires Decoded(p).Ok? && i < |Decoded(p).value|
    ensures p.Json?
    ensures var c := Decoded(p).value[i];
            if Compact(p) then
              && |Decoded(p).value| == 1 && p.change.Some?
              && c == p.change.value.(operation := NormalOperation(p.change.value.operation))
            else
              && p.envelope.Some? && !p.envelope.value.isDdl && |Decoded(p).value| == |p.envelope.value.data|
              && var e, row := p.envelope.value, p.envelope.value.data[i];
                 && c.source == row.source && c.filePath == row.filePath && c.operation == NormalOperation(e.kind)
                 && (row.documentId != "" ==> c.documentId == row.documentId)
                 && (row.documentId == "" ==> c.documentId == row.id)
                 && (e.es != 0 ==> c.timestamp == e.es) && (e.es == 0 ==> c.timestamp == e.ts)
  {
    DecodingIsAllOrNothing(p);
  }
}
