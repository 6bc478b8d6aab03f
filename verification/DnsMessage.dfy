/** Reading DNS answers and writing DNS queries (`src/dns/resolver.ts`); section 4.1 of RFC 1035. */
module DnsMessages {
  import opened Common
  import opened SocksTexts

  datatype DnsError = InvalidResponse | IdMismatch | TruncatedName | TruncatedAnswer | TruncatedRdata | NoARecord

  datatype DnsAResult = DnsAResult(address: string, ttlMs: int)

  function Max(a: int, b: int): int {
    if a < b then b else a
  }

  // ----------------------------------------------------------------- the code

  /** Where the name at an offset ends; a compression pointer ends it without being followed, even if its second byte
      is missing. */
  function NameEnd(message: bytes, offset: nat): (r: Option<nat>)
    ensures r.Some? ==> offset < r.value
    decreases |message| - offset
  {
    if offset >= |message| then None
    else if message[offset] >= 192 then Some(offset + 2)
    else if message[offset] == 0 then Some(offset + 1)
    else NameEnd(message, offset + 1 + message[offset])
  }

  /** `skipDnsName`. */
  method SkipDnsName(message: bytes, offset: nat) returns (r: Option<nat>)
    ensures r == NameEnd(message, offset)
  {
    var cursor := offset;
    while cursor < |message|
      invariant NameEnd(message, cursor) == NameEnd(message, offset)
    {
      var length := message[cursor];
      if length >= 192 {
        return Some(cursor + 2);
      }
      cursor := cursor + 1;
      if length == 0 {
        return Some(cursor);
      }
      cursor := cursor + length;
    }
    return None;
  }

  /** `readUInt32BE`. */
  function Word32(message: bytes, at: nat): (w: int)
    requires at + 4 <= |message|
    ensures 0 <= w < 0x1_0000_0000
  {
    65536 * BigEndian(message[at], message[at + 1]) + BigEndian(message[at + 2], message[at + 3])
  }

  function Word16(message: bytes, at: nat): (w: int)
    requires at + 2 <= |message|
    ensures 0 <= w < 65536
  {
    BigEndian(message[at], message[at + 1])
  }

  /** What one round of the answer loop makes of a record. */
  datatype Answer = Found(result: DnsAResult) | Next(offset: nat) | Failed(error: DnsError)

  /** The record whose type, class, time to live and length stand at an offset. */
  function ReadBody(message: bytes, at: nat): Answer {
    if at + 10 > |message| then Failed(TruncatedAnswer)
    else
      var length := Word16(message, at + 8);
      if at + 10 + length > |message| then Failed(TruncatedRdata)
      else if Word16(message, at) == 1 && Word16(message, at + 2) == 1 && length == 4 then
        Found(DnsAResult(Join(OctetTexts(message[at + 10..at + 14]), '.'), Max(1000, Word32(message, at + 4) * 1000)))
      else Next(at + 10 + length)
  }

  /** The answer section from an offset, with a number of records left to read. */
  function ReadAnswers(message: bytes, offset: nat, left: nat): Result<DnsAResult, DnsError>
    decreases left
  {
    if left == 0 then Err(NoARecord)
    else match NameEnd(message, offset)
      case None => Err(TruncatedName)
      case Some(at) =>
        match ReadBody(message, at)
        case Found(result) => Ok(result)
        case Failed(error) => Err(error)
        case Next(later) => ReadAnswers(message, later, left - 1)
  }

  function DecodeA(message: bytes, expectedId: int): Result<DnsAResult, DnsError> {
    if |message| < 12 then Err(InvalidResponse)
    else if Word16(message, 0) != expectedId then Err(IdMismatch)
    else match NameEnd(message, 12)
      case None => Err(TruncatedName)
      case Some(end) => ReadAnswers(message, end + 4, Word16(message, 6))
  }

  /** The body of the answer loop behind the name. */
  method ReadRecord(message: bytes, at: nat) returns (answer: Answer)
    ensures answer == ReadBody(message, at)
  {
    var offset := at;
    if offset + 10 > |message| {
      return Failed(TruncatedAnswer);
    }
    var kind := BigEndian(message[offset], message[offset + 1]);
    var klass := BigEndian(message[offset + 2], message[offset + 3]);
    var ttl := Word32(message, offset + 4);
    var length := BigEndian(message[offset + 8], message[offset + 9]);
    offset := offset + 10;
    if offset + length > |message| {
      return Failed(TruncatedRdata);
    }
    if kind == 1 && klass == 1 && length == 4 {
      var octets := [message[offset], message[offset + 1], message[offset + 2], message[offset + 3]];
      assert octets == message[offset..offset + 4];
      return Found(DnsAResult(Join(OctetTexts(octets), '.'), Max(1000, ttl * 1000)));
    }
    return Next(offset + length);
  }

  /** `decodeDnsAResponse`. It ends on any bytes, and reads none outside the message. */
  method DecodeDnsAResponse(message: bytes, expectedId: int) returns (r: Result<DnsAResult, DnsError>)
    ensures r == DecodeA(message, expectedId)
  {
    if |message| < 12 {
      return Err(InvalidResponse);
    }
    var id := BigEndian(message[0], message[1]);
    if id != expectedId {
      return Err(IdMismatch);
    }
    var answerCount := BigEndian(message[6], message[7]);
    var question := SkipDnsName(message, 12);
    if question.None? {
      return Err(TruncatedName);
    }
    var offset: nat := question.value + 4;
    ghost var start := offset;
    for answer := 0 to answerCount
      invariant ReadAnswers(message, start, answerCount) == ReadAnswers(message, offset, answerCount - answer)
    {
      var name := SkipDnsName(message, offset);
      if name.None? {
        return Err(TruncatedName);
      }
      var read := ReadRecord(message, name.value);
      OneAnswer(message, offset, answerCount - answer, name.value, read);
      match read {
        case Found(result) => return Ok(result);
        case Failed(error) => return Err(error);
        case Next(later) => offset := later;
      }
    }
    return Err(NoARecord);
  }

  lemma OneAnswer(message: bytes, offset: nat, left: nat, at: nat, answer: Answer)
    requires left > 0 && NameEnd(message, offset) == Some(at) && answer == ReadBody(message, at)
    ensures ReadAnswers(message, offset, left) == match answer
      case Found(result) => Ok(result)
      case Failed(error) => Err(error)
      case Next(later) => ReadAnswers(message, later, left - 1)
  {
  }

  // --------------------------------------------------------- what servers send

  /** A name on the wire: labels, then the root or a pointer to an earlier name. */
  datatype Name = Name(labels: seq<bytes>, pointer: Option<nat>) {
    ghost predicate Valid() {
      && (forall i :: 0 <= i < |labels| ==> 1 <= |labels[i]| <= 191)
      && (pointer.Some? ==> pointer.value < 0x4000)
    }

    function Wire(): bytes
      requires Valid()
    {
      LabelBytes(labels) + Tail()
    }

    function Tail(): (t: bytes)
      requires Valid()
      ensures t != []
    {
      match pointer case None => [0] case Some(p) => [192 + p / 256, p % 256]
    }
  }

  function LabelBytes(labels: seq<bytes>): bytes
    requires forall i :: 0 <= i < |labels| ==> |labels[i]| <= 255
  {
    if labels == [] then [] else [|labels[0]|] + labels[0] + LabelBytes(labels[1..])
  }

  function Big16(w: Word): (b: bytes)
    ensures |b| == 2 && BigEndian(b[0], b[1]) == w
  {
    [w / 256, w % 256]
  }

  type Ttl = x: int | 0 <= x < 0x1_0000_0000

  function Big32(w: Ttl): (b: bytes)
    ensures |b| == 4 && 65536 * BigEndian(b[0], b[1]) + BigEndian(b[2], b[3]) == w
  {
    Big16(w / 65536) + Big16(w % 65536)
  }

  /** A resource record: type, class, time to live, length and data behind its name. */
  datatype Record = Record(name: Name, kind: Word, klass: Word, ttl: Ttl, data: bytes) {
    ghost predicate Valid() {
      name.Valid() && |data| < 65536
    }

    function Body(): (b: bytes)
      requires |data| < 65536
      ensures |b| == 10 + |data|
    {
      Big16(kind) + Big16(klass) + Big32(ttl) + Big16(|data|) + data
    }

    predicate IsA() {
      kind == 1 && klass == 1 && |data| == 4
    }
  }

  ghost predicate AllValid(records: seq<Record>) {
    forall i :: 0 <= i < |records| ==> records[i].Valid()
  }

  function RecordBytes(records: seq<Record>): bytes
    requires AllValid(records)
  {
    if records == [] then []
    else
      var first := records[0];
      first.name.Wire() + first.Body() + RecordBytes(records[1..])
  }

  /** A response: header, one question, the answers the header counts, and whatever follows them. */
  datatype Response = Response(id: Word, flags: Word, question: Name, kind: Word, klass: Word, answers: seq<Record>,
                               authorities: Word, additionals: Word, rest: bytes)
  {
    ghost predicate Valid() {
      question.Valid() && |answers| < 65536 && AllValid(answers)
    }

    function Header(): (h: bytes)
      requires |answers| < 65536
      ensures |h| == 12
    {
      Big16(id) + Big16(flags) + Big16(1) + Big16(|answers|) + Big16(authorities) + Big16(additionals)
    }

    function Wire(): bytes
      requires Valid()
    {
      Header() + question.Wire() + (Big16(kind) + Big16(klass)) + RecordBytes(answers) + rest
    }
  }

  /** The first A record of the Internet class with four bytes of data. */
  function FirstA(records: seq<Record>): Option<Record> {
    if records == [] then None
    else if records[0].IsA() then Some(records[0])
    else FirstA(records[1..])
  }

  // ------------------------------------------------------------------- proofs

  /** Some bytes stand in a message at an offset. */
  ghost predicate StandsAt(part: bytes, message: bytes, at: nat) {
    at + |part| <= |message| && message[at..at + |part|] == part
  }

  lemma StandTogether(a: bytes, b: bytes, message: bytes, at: nat)
    requires StandsAt(a + b, message, at)
    ensures StandsAt(a, message, at) && StandsAt(b, message, at + |a|)
  {
    var both := message[at..at + |a + b|];
    assert a == both[..|a|] && b == both[|a|..];
  }

  lemma OneLabel(message: bytes, at: nat, n: int)
    requires at < |message| && message[at] == n && 1 <= n < 192
    ensures NameEnd(message, at) == NameEnd(message, at + 1 + n)
  {
  }

  lemma {:induction false} LabelsAreSkipped(labels: seq<bytes>, message: bytes, at: nat)
    requires forall i :: 0 <= i < |labels| ==> 1 <= |labels[i]| <= 191
    requires StandsAt(LabelBytes(labels), message, at)
    ensures NameEnd(message, at) == NameEnd(message, at + |LabelBytes(labels)|)
  {
    if labels != [] {
      var first, later := [|labels[0]|] + labels[0], labels[1..];
      StandTogether(first, LabelBytes(later), message, at);
      assert message[at] == message[at..at + |first|][0];
      OneLabel(message, at, |labels[0]|);
      LabelsAreSkipped(later, message, at + |first|);
    }
  }

  lemma NameIsSkipped(n: Name, message: bytes, at: nat)
    requires n.Valid() && StandsAt(n.Wire(), message, at)
    ensures NameEnd(message, at) == Some(at + |n.Wire()|)
  {
    var labels := LabelBytes(n.labels);
    StandTogether(labels, n.Tail(), message, at);
    LabelsAreSkipped(n.labels, message, at);
    var end := at + |labels|;
    assert message[end] == message[end..end + |n.Tail()|][0];
  }

  lemma WordsOfBody(r: Record, message: bytes, at: nat)
    requires |r.data| < 65536 && StandsAt(r.Body(), message, at)
    ensures Word16(message, at) == r.kind && Word16(message, at + 2) == r.klass
    ensures Word32(message, at + 4) == r.ttl && Word16(message, at + 8) == |r.data|
    ensures message[at + 10..at + 10 + |r.data|] == r.data
  {
    var b := r.Body();
    var m := message[at..at + |b|];
    assert forall i :: 0 <= i < |b| ==> message[at + i] == m[i] == b[i];
    assert message[at + 10..at + 10 + |r.data|] == m[10..] == b[10..] == r.data;
    assert b[0..2] == Big16(r.kind) && b[2..4] == Big16(r.klass);
    assert b[4..8] == Big32(r.ttl) && b[8..10] == Big16(|r.data|);
    assert b[0] == b[0..2][0] && b[1] == b[0..2][1] && b[2] == b[2..4][0] && b[3] == b[2..4][1];
    assert b[4] == b[4..8][0] && b[5] == b[4..8][1] && b[6] == b[4..8][2] && b[7] == b[4..8][3];
    assert b[8] == b[8..10][0] && b[9] == b[8..10][1];
  }

  lemma BodyReads(r: Record, message: bytes, at: nat)
    requires |r.data| < 65536 && StandsAt(r.Body(), message, at)
    ensures ReadBody(message, at) == if r.IsA() then Found(ResultOf(Some(r)).value) else Next(at + |r.Body()|)
  {
    WordsOfBody(r, message, at);
  }

  function ResultOf(found: Option<Record>): Result<DnsAResult, DnsError> {
    match found
    case None => Err(NoARecord)
    case Some(r) => Ok(DnsAResult(Join(OctetTexts(r.data), '.'), Max(1000, r.ttl * 1000)))
  }

  /** One record in front of other bytes. */
  lemma RecordReads(r: Record, later: bytes, message: bytes, offset: nat) returns (at: nat, next: nat)
    requires r.Valid() && StandsAt(r.name.Wire() + r.Body() + later, message, offset)
    ensures NameEnd(message, offset) == Some(at)
    ensures ReadBody(message, at) == if r.IsA() then Found(ResultOf(Some(r)).value) else Next(next)
    ensures StandsAt(later, message, next)
  {
    hide NameEnd, ReadBody, Record.IsA;
    var name, body := r.name.Wire(), r.Body();
    AppendAssoc(name, body, later);
    StandTogether(name, body + later, message, offset);
    NameIsSkipped(r.name, message, offset);
    at := offset + |name|;
    StandTogether(body, later, message, at);
    BodyReads(r, message, at);
    next := at + |body|;
  }

  lemma {:induction false} AnswersRead(records: seq<Record>, message: bytes, offset: nat)
    requires AllValid(records) && StandsAt(RecordBytes(records), message, offset)
    ensures ReadAnswers(message, offset, |records|) == ResultOf(FirstA(records))
  {
    if records != [] {
      var later := records[1..];
      var at, next := RecordReads(records[0], RecordBytes(later), message, offset);
      OneAnswer(message, offset, |records|, at, ReadBody(message, at));
      AnswersRead(later, message, next);
    }
  }

  /** Main result: for a response of one question and its counted answers, with plain or compressed names, the parser
      returns the address of the first A record and its time to live in milliseconds, a second at least, and fails
      exactly when there is no such record; and with another identifier it fails for that. */
  lemma ResponseIsRead(r: Response, expectedId: int)
    requires r.Valid()
    ensures DecodeA(r.Wire(), expectedId) ==
      if r.id != expectedId then Err(IdMismatch) else ResultOf(FirstA(r.answers))
  {
    var m := r.Wire();
    var h, q, k, a := r.Header(), r.question.Wire(), Big16(r.kind) + Big16(r.klass), RecordBytes(r.answers);
    assert StandsAt(h, m, 0) && StandsAt(q, m, 12) && StandsAt(a, m, 12 + |q| + 4) by {
      Parts(h, q, k, a, r.rest);
    }
    HeaderReads(r, m);
    NameIsSkipped(r.question, m, 12);
    AnswersRead(r.answers, m, 12 + |q| + 4);
  }

  lemma Parts(h: bytes, q: bytes, k: bytes, a: bytes, rest: bytes)
    ensures var m := h + q + k + a + rest;
      StandsAt(h, m, 0) && StandsAt(q, m, |h|) && StandsAt(a, m, |h| + |q| + |k|)
  {
  }

  lemma HeaderReads(r: Response, m: bytes)
    requires |r.answers| < 65536 && StandsAt(r.Header(), m, 0)
    ensures Word16(m, 0) == r.id && Word16(m, 6) == |r.answers|
  {
    var h := r.Header();
    assert m[0] == m[0..12][0] == h[0] && m[1] == m[0..12][1] == h[1];
    assert m[6] == m[0..12][6] == h[6] && m[7] == m[0..12][7] == h[7];
    assert h[0..2] == Big16(r.id) && h[6..8] == Big16(|r.answers|);
    assert h[0] == h[0..2][0] && h[1] == h[0..2][1] && h[6] == h[6..8][0] && h[7] == h[6..8][1];
  }

  /** What the first A record is. */
  lemma {:induction false} FirstAIsFirst(records: seq<Record>) returns (k: nat)
    ensures k <= |records| && forall i :: 0 <= i < k ==> !records[i].IsA()
    ensures FirstA(records) == if k == |records| then None else Some(records[k])
    ensures k < |records| ==> records[k].IsA()
  {
    if records == [] || records[0].IsA() {
      return 0;
    }
    var j := FirstAIsFirst(records[1..]);
    return j + 1;
  }

  /** A place in a message that reads as an A record of the Internet class. */
  ghost predicate ARecordAt(message: bytes, at: nat, result: DnsAResult) {
    && at + 14 <= |message|
    && Word16(message, at) == 1 && Word16(message, at + 2) == 1 && Word16(message, at + 8) == 4
    && result == DnsAResult(Join(OctetTexts(message[at + 10..at + 14]), '.'), Max(1000, Word32(message, at + 4) * 1000))
  }

  /** On any bytes at all: an answer given comes from an A record in the message, behind the header. */
  lemma AnswerIsInMessage(message: bytes, expectedId: int) returns (at: nat)
    requires DecodeA(message, expectedId).Ok?
    ensures at > 16 && ARecordAt(message, at, DecodeA(message, expectedId).value)
  {
    at := AnswerIsBehind(message, NameEnd(message, 12).value + 4, Word16(message, 6));
  }

  lemma {:induction false} AnswerIsBehind(message: bytes, offset: nat, left: nat) returns (at: nat)
    requires ReadAnswers(message, offset, left).Ok?
    ensures at > offset && ARecordAt(message, at, ReadAnswers(message, offset, left).value)
    decreases left
  {
    at := NameEnd(message, offset).value;
    var answer := ReadBody(message, at);
    if answer.Next? {
      at := AnswerIsBehind(message, answer.offset, left - 1);
    }
  }

  // -------------------------------------------------------------- cut messages

  /** Reading ended for want of bytes. */
  predicate CutShort(r: Result<DnsAResult, DnsError>) {
    r.Err? && r.error in {InvalidResponse, TruncatedName, TruncatedAnswer, TruncatedRdata}
  }

  lemma {:induction false} SameNameEnd(message: bytes, more: bytes, offset: nat)
    requires NameEnd(message, offset).Some?
    ensures NameEnd(message + more, offset) == NameEnd(message, offset)
    decreases |message| - offset
  {
    if message[offset] < 192 && message[offset] != 0 {
      SameNameEnd(message, more, offset + 1 + message[offset]);
    }
  }

  lemma SameBody(message: bytes, more: bytes, at: nat)
    requires !ReadBody(message, at).Failed?
    ensures ReadBody(message + more, at) == ReadBody(message, at)
  {
    var all := message + more;
    assert all[at + 10..at + 10 + Word16(message, at + 8)] == message[at + 10..at + 10 + Word16(message, at + 8)];
  }

  lemma {:induction false} SameAnswers(message: bytes, more: bytes, offset: nat, left: nat)
    requires !CutShort(ReadAnswers(message, offset, left))
    ensures ReadAnswers(message + more, offset, left) == ReadAnswers(message, offset, left)
    decreases left
  {
    if left > 0 {
      hide ReadBody;
      SameNameEnd(message, more, offset);
      var at := NameEnd(message, offset).value;
      BodyErrors(message, at);
      SameBody(message, more, at);
      OneAnswer(message, offset, left, at, ReadBody(message, at));
      OneAnswer(message + more, offset, left, at, ReadBody(message, at));
      if ReadBody(message, at).Next? {
        SameAnswers(message, more, ReadBody(message, at).offset, left - 1);
      }
    }
  }

  lemma BodyErrors(message: bytes, at: nat)
    ensures ReadBody(message, at).Failed? ==> ReadBody(message, at).error in {TruncatedAnswer, TruncatedRdata}
  {
  }

  /** Main result on cut messages: whatever is read of a beginning of a message, an answer, the wrong identifier or the
      lack of an A record, is read of the whole of it too; all that more bytes can mend is an error that says there were
      too few. */
  lemma MoreBytesSameAnswer(message: bytes, more: bytes, expectedId: int)
    requires !CutShort(DecodeA(message, expectedId))
    ensures DecodeA(message + more, expectedId) == DecodeA(message, expectedId)
  {
    var all := message + more;
    assert Word16(all, 0) == Word16(message, 0) && Word16(all, 6) == Word16(message, 6);
    if Word16(message, 0) == expectedId {
      SameNameEnd(message, more, 12);
      SameAnswers(message, more, NameEnd(message, 12).value + 4, Word16(message, 6));
    }
  }

  // ------------------------------------------------------------------ queries

  predicate IsAscii(s: string) {
    forall i :: 0 <= i < |s| ==> s[i] < 128 as char
  }

  function Ascii(s: string): (b: bytes)
    requires IsAscii(s)
    ensures |b| == |s|
  {
    seq(|s|, i requires 0 <= i < |s| => s[i] as int)
  }

  /** Each part behind its length, which one byte holds modulo 256. */
  function QuestionParts(labels: seq<string>): bytes
    requires forall i :: 0 <= i < |labels| ==> IsAscii(labels[i])
  {
    if labels == [] then [] else [|labels[0]| % 256] + Ascii(labels[0]) + QuestionParts(labels[1..])
  }

  lemma {:induction false} SplitKeepsAscii(s: string, c: char)
    requires IsAscii(s)
    ensures forall i :: 0 <= i < |Split(s, c)| ==> IsAscii(Split(s, c)[i])
  {
    if s != "" {
      SplitKeepsAscii(s[1..], c);
      var rest := Split(s[1..], c);
      assert IsAscii([s[0]] + rest[0]);
      if s[0] == c {
        assert forall i :: 1 <= i < |rest| + 1 ==> ([""] + rest)[i] == rest[i - 1];
      }
    }
  }

  /** `encodeDnsQuery`. */
  function EncodeDnsQuery(id: int, host: string): bytes
    requires IsAscii(host)
  {
    SplitKeepsAscii(host, '.');
    [id / 256 % 256, id % 256, 1, 0, 0, 1, 0, 0, 0, 0, 0, 0] + QuestionParts(Split(host, '.')) + [0, 0, 1, 0, 1]
  }

  predicate Plain(part: string) {
    1 <= |part| <= 191
  }

  predicate AllPlain(labels: seq<string>) {
    forall i :: 0 <= i < |labels| ==> Plain(labels[i])
  }

  lemma PlainInFront(labels: seq<string>)
    requires labels != []
    ensures AllPlain(labels) <==> Plain(labels[0]) && AllPlain(labels[1..])
  {
    assert forall i :: 1 <= i < |labels| ==> labels[i] == labels[1..][i - 1];
  }

  /** The first label that is not plain, if there is one. */
  function FirstOdd(labels: seq<string>): Option<string> {
    if labels == [] then None
    else if Plain(labels[0]) then FirstOdd(labels[1..])
    else Some(labels[0])
  }

  lemma {:induction false} NoneOdd(labels: seq<string>)
    ensures FirstOdd(labels).None? <==> AllPlain(labels)
  {
    if labels != [] {
      NoneOdd(labels[1..]);
      PlainInFront(labels);
    }
  }

  /** A label so long that its length byte wraps, to a length a label may have. */
  predicate Wraps(part: string) {
    |part| >= 256 && 1 <= |part| % 256 <= 191
  }

  /** Main result on questions: that of a query is one name and four bytes, as the parser reads questions, if
      every label has 1 to 191 bytes; and it is not if the first label that has not is empty, has 192 to 256 bytes, or
      is longer with a length byte of that kind. A host with an empty label, such as one that ends in a dot, makes a
      query whose name ends early. */
  lemma QueryIsOneQuestion(id: int, host: string)
    requires IsAscii(host)
    ensures var query, labels := EncodeDnsQuery(id, host), Split(host, '.');
      && (AllPlain(labels) ==> NameEnd(query, 12) == Some(|query| - 4))
      && (!AllPlain(labels) ==>
            FirstOdd(labels).Some? && (!Wraps(FirstOdd(labels).value) ==> NameEnd(query, 12) != Some(|query| - 4)))
  {
    SplitKeepsAscii(host, '.');
    var labels, query := Split(host, '.'), EncodeDnsQuery(id, host);
    assert query[12..] == QuestionParts(labels) + [0, 0, 1, 0, 1];
    QuestionEnds(labels, query, 12);
    NoneOdd(labels);
  }

  /** The bytes of plain labels. */
  function Labels(parts: seq<string>): (r: seq<bytes>)
    requires forall i :: 0 <= i < |parts| ==> IsAscii(parts[i])
    ensures |r| == |parts| && forall i :: 0 <= i < |r| ==> r[i] == Ascii(parts[i])
    ensures AllPlain(parts) ==> forall i :: 0 <= i < |r| ==> 1 <= |r[i]| <= 191
  {
    seq(|parts|, i requires 0 <= i < |parts| => Ascii(parts[i]))
  }

  lemma {:induction false} PlainLabels(parts: seq<string>)
    requires AllPlain(parts) && forall i :: 0 <= i < |parts| ==> IsAscii(parts[i])
    ensures LabelBytes(Labels(parts)) == QuestionParts(parts)
  {
    hide Ascii;
    if parts != [] {
      var first, later := parts[0], parts[1..];
      PlainLabels(later);
      assert Labels(parts)[0] == Ascii(first) && Labels(parts)[1..] == Labels(later);
    }
  }

  /** Main result on queries: with plain labels a query is the message of section 4.1 with this identifier that wants
      recursion and has one question, for the address of the host in the Internet class, and nothing else. */
  lemma QueryIsMessage(id: Word, host: string)
    requires IsAscii(host) && AllPlain(Split(host, '.'))
    ensures (forall i :: 0 <= i < |Split(host, '.')| ==> IsAscii(Split(host, '.')[i]))
      && var r := Response(id, 0x0100, Name(Labels(Split(host, '.')), None), 1, 1, [], 0, 0, []);
         r.Valid() && r.Wire() == EncodeDnsQuery(id, host)
  {
    hide LabelBytes, QuestionParts, Split;
    SplitKeepsAscii(host, '.');
    var parts := Split(host, '.');
    PlainLabels(parts);
    var r := Response(id, 0x0100, Name(Labels(parts), None), 1, 1, [], 0, 0, []);
    assert r.Header() == [id / 256 % 256, id % 256, 1, 0, 0, 1, 0, 0, 0, 0, 0, 0];
    var q := QuestionParts(parts);
    assert Big16(1) + Big16(1) == [0, 1, 0, 1];
    assert r.Header() + (q + [0]) + [0, 1, 0, 1] + [] + [] == r.Header() + q + [0, 0, 1, 0, 1];
  }

  /** An answer is taken for one to this query, whatever the host, exactly if its first two bytes are the query's. */
  lemma AnswerBelongsExactlyWhen(message: bytes, id: Word, host: string)
    requires IsAscii(host) && 12 <= |message|
    ensures DecodeA(message, id) == Err(IdMismatch) <==> message[..2] != EncodeDnsQuery(id, host)[..2]
  {
    hide NameEnd, ReadAnswers, EncodeDnsQuery, QuestionParts, Split;
    var query := EncodeDnsQuery(id, host);
    QueryBegins(id, host);
    FirstBytes(message[0], message[1], id);
    assert message[..2] == [message[0], message[1]];
    if NameEnd(message, 12).Some? {
      OtherErrors(message, NameEnd(message, 12).value + 4, Word16(message, 6));
    }
  }

  lemma QueryBegins(id: Word, host: string)
    requires IsAscii(host)
    ensures EncodeDnsQuery(id, host)[..2] == [id / 256, id % 256]
  {
    hide QuestionParts, Split;
    var query := EncodeDnsQuery(id, host);
    assert query[0] == id / 256 && query[1] == id % 256;
  }

  lemma FirstBytes(high: byte, low: byte, id: Word)
    ensures BigEndian(high, low) == id <==> [high, low] == [id / 256, id % 256]
  {
    BytesOfBigEndian(high, low);
  }

  lemma {:induction false} OtherErrors(message: bytes, offset: nat, left: nat)
    ensures ReadAnswers(message, offset, left) != Err(IdMismatch)
    decreases left
  {
    if left != 0 && NameEnd(message, offset).Some? {
      var answer := ReadBody(message, NameEnd(message, offset).value);
      if answer.Next? {
        OtherErrors(message, answer.offset, left - 1);
      }
    }
  }

  /** A label of 257 letters, so with length byte 1, whose letters `z`, `B` and `A`, taken for lengths, lead to its
      end. */
  function WrappedHost(): (host: string)
    ensures |host| == 257 && IsAscii(host) && '.' !in host
    ensures host[1] == 'z' && host[124] == 'B' && host[191] == 'A'
  {
    "xz" + seq(122, _ => 'x') + "B" + seq(66, _ => 'x') + "A" + seq(65, _ => 'x')
  }

  lemma WrappedQuery(id: int)
    ensures var query, host := EncodeDnsQuery(id, WrappedHost()), WrappedHost();
      |query| == 275 && query[12] == 1 && query[270] == 0 && query[13..270] == Ascii(host)
  {
    hide WrappedHost, Ascii, Split, QuestionParts;
    var host := WrappedHost();
    SplitNone(host, '.');
    OneLabelAlone(host);
    var head := [id / 256 % 256, id % 256, 1, 0, 0, 1, 0, 0, 0, 0, 0, 0];
    InTheMiddle(head, [1], Ascii(host), [0, 0, 1, 0, 1]);
  }

  lemma OneLabelAlone(part: string)
    requires IsAscii(part)
    ensures QuestionParts([part]) == [|part| % 256] + Ascii(part)
  {
    assert [part][1..] == [];
  }

  lemma InTheMiddle(a: bytes, b: bytes, c: bytes, d: bytes)
    requires |a| == 12 && |b| == 1 && |c| == 257 && |d| == 5
    ensures var m := a + (b + c) + d;
      |m| == 275 && m[12] == b[0] && m[270] == d[0] && m[13..270] == c
  {
  }

  /** A label whose length byte wraps can pass all the same. */
  lemma WrappedLabelCanPass(id: int)
    ensures Split(WrappedHost(), '.') == [WrappedHost()] && Wraps(WrappedHost())
    ensures var query := EncodeDnsQuery(id, WrappedHost()); NameEnd(query, 12) == Some(|query| - 4)
  {
    hide WrappedHost, EncodeDnsQuery, NameEnd;
    var query, host := EncodeDnsQuery(id, WrappedHost()), WrappedHost();
    SplitNone(host, '.');
    WrappedQuery(id);
    assert query[14] == query[13..270][1] && query[137] == query[13..270][124] && query[204] == query[13..270][191];
    OneLabel(query, 12, 1);
    OneLabel(query, 14, 122);
    OneLabel(query, 137, 66);
    OneLabel(query, 204, 65);
    RootEnds(query, 270);
  }

  lemma EndsEarly(query: bytes, at: nat, n: int)
    requires at < |query| && query[at] == n && (n == 0 || n >= 192) && |query| - at >= n + 6
    ensures NameEnd(query, at) != Some(|query| - 4)
  {
  }

  lemma RootEnds(query: bytes, at: nat)
    requires at < |query| && query[at] == 0
    ensures NameEnd(query, at) == Some(at + 1)
  {
  }

  lemma {:induction false} QuestionEnds(labels: seq<string>, query: bytes, at: nat)
    requires forall i :: 0 <= i < |labels| ==> IsAscii(labels[i])
    requires StandsAt(QuestionParts(labels) + [0, 0, 1, 0, 1], query, at) && |query| == at + |QuestionParts(labels)| + 5
    ensures FirstOdd(labels).None? ==> NameEnd(query, at) == Some(|query| - 4)
    ensures FirstOdd(labels).Some? && !Wraps(FirstOdd(labels).value) ==> NameEnd(query, at) != Some(|query| - 4)
  {
    hide NameEnd, Ascii;
    assert query[at] == query[at..|query|][0];
    if labels == [] {
      RootEnds(query, at);
    } else {
      var first, later := [|labels[0]| % 256] + Ascii(labels[0]), labels[1..];
      var rest := QuestionParts(later) + [0, 0, 1, 0, 1];
      AppendAssoc(first, QuestionParts(later), [0, 0, 1, 0, 1]);
      if Plain(labels[0]) {
        OneLabel(query, at, |labels[0]|);
        StandTogether(first, rest, query, at);
        QuestionEnds(later, query, at + |first|);
      } else if !Wraps(labels[0]) {
        EndsEarly(query, at, |labels[0]| % 256);
      }
    }
  }
}
