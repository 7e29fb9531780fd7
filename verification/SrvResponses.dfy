/** The walk over a DNS response that collects its SRV records. */
module SrvResponses {
  import opened Bytes
  import opened DnsNames
  import opened Wrappers

  const SRV := 33
  const INTERNET := 1

  datatype SrvRecord = SrvRecord(priority: nat, weight: nat, port: nat, target: string)

  datatype ResponseError =
    | TooShort
    | IdMismatch
    | NotAResponse
    | ServerError(code: nat)
    | BadName(error: NameError)
    | Truncated
    | TruncatedRecord

  type Parsed<+T> = Result<T, ResponseError>

  function U16(packet: seq<byte>, offset: nat): (n: nat)
    requires offset + 2 <= |packet|
    ensures n < 0x1_0000
  {
    var high: int := packet[offset];
    high * 256 + packet[offset + 1]
  }

  /** Two octets in network order. */
  lemma U16BigEndian(packet: seq<byte>, offset: nat)
    requires offset + 2 <= |packet|
    ensures U16(packet, offset) == FromBe(packet[offset..offset + 2])
  {
    FromBePair(packet[offset], packet[offset + 1]);
    assert packet[offset..offset + 2] == [packet[offset], packet[offset + 1]];
  }

  // ---- The order of the records ----

  predicate Before(a: SrvRecord, b: SrvRecord) {
    a.priority < b.priority || (a.priority == b.priority && a.weight > b.weight)
  }

  function Insert(record: SrvRecord, sorted: seq<SrvRecord>): seq<SrvRecord> {
    if sorted == [] || !Before(sorted[0], record) then [record] + sorted
    else [sorted[0]] + Insert(record, sorted[1..])
  }

  /** By rising priority, heavier weights first, and otherwise as they came. */
  function Sorted(records: seq<SrvRecord>): seq<SrvRecord> {
    if records == [] then [] else Insert(records[0], Sorted(records[1..]))
  }

  /** No record comes before one that precedes it. */
  predicate InOrder(records: seq<SrvRecord>) {
    records == [] || ((forall x <- records[1..] :: !Before(x, records[0])) && InOrder(records[1..]))
  }

  function Ranked(records: seq<SrvRecord>, priority: nat, weight: nat): seq<SrvRecord> {
    if records == [] then []
    else
      var rest := Ranked(records[1..], priority, weight);
      if records[0].priority == priority && records[0].weight == weight then [records[0]] + rest else rest
  }

  lemma {:induction false} InsertContents(record: SrvRecord, sorted: seq<SrvRecord>)
    ensures multiset(Insert(record, sorted)) == multiset(sorted) + multiset{record}
  {
    if sorted != [] {
      assert sorted == [sorted[0]] + sorted[1..];
      InsertContents(record, sorted[1..]);
    }
  }

  lemma {:induction false} InsertKeeps(record: SrvRecord, sorted: seq<SrvRecord>)
    requires InOrder(sorted)
    ensures InOrder(Insert(record, sorted))
  {
    if sorted == [] || !Before(sorted[0], record) {
      assert ([record] + sorted)[1..] == sorted;
      forall x | x in sorted ensures !Before(x, record) {
        assert x == sorted[0] || x in sorted[1..];
      }
    } else {
      var after := Insert(record, sorted[1..]);
      InsertKeeps(record, sorted[1..]);
      InsertContents(record, sorted[1..]);
      assert ([sorted[0]] + after)[1..] == after;
      forall x | x in after ensures !Before(x, sorted[0]) {
        assert x in multiset(after);
      }
    }
  }

  lemma {:induction false} InsertRanked(record: SrvRecord, sorted: seq<SrvRecord>, priority: nat, weight: nat)
    ensures Ranked(Insert(record, sorted), priority, weight) == Ranked([record] + sorted, priority, weight)
  {
    assert ([record] + sorted)[1..] == sorted;
    if sorted != [] && Before(sorted[0], record) {
      InsertRanked(record, sorted[1..], priority, weight);
      assert ([record] + sorted[1..])[1..] == sorted[1..];
      assert ([sorted[0]] + Insert(record, sorted[1..]))[1..] == Insert(record, sorted[1..]);
    }
  }

  /** The sort orders, loses and invents nothing, and is stable. */
  lemma {:induction false} SortMeaning(records: seq<SrvRecord>, priority: nat, weight: nat)
    ensures InOrder(Sorted(records)) && multiset(Sorted(records)) == multiset(records)
    ensures Ranked(Sorted(records), priority, weight) == Ranked(records, priority, weight)
  {
    if records != [] {
      var rest := Sorted(records[1..]);
      SortMeaning(records[1..], priority, weight);
      InsertKeeps(records[0], rest);
      InsertContents(records[0], rest);
      InsertRanked(records[0], rest, priority, weight);
      assert ([records[0]] + rest)[1..] == rest;
      assert records == [records[0]] + records[1..];
    }
  }

  /** In an ordered list every record is of lower priority than each later one, or of the same priority
      and no less weight. */
  lemma {:induction false} OrderMeaning(records: seq<SrvRecord>)
    ensures InOrder(records) <==> forall i, j | 0 <= i < j < |records| :: Precedes(records[i], records[j])
  {
    if records != [] {
      var rest := records[1..];
      OrderMeaning(rest);
      assert forall j | 0 < j < |records| :: records[j] == rest[j - 1];
      forall j | 0 < j < |records| ensures Precedes(records[0], records[j]) <==> !Before(rest[j - 1], records[0]) {
      }
      if InOrder(records) {
        forall i, j | 0 <= i < j < |records| ensures Precedes(records[i], records[j]) {
          assert records[j] in rest;
          if i > 0 {
            assert Precedes(rest[i - 1], rest[j - 1]);
          }
        }
      }
      if forall i, j | 0 <= i < j < |records| :: Precedes(records[i], records[j]) {
        forall i, j | 0 <= i < j < |rest| ensures Precedes(rest[i], rest[j]) {
          assert Precedes(records[i + 1], records[j + 1]);
        }
      }
    }
  }

  predicate Precedes(a: SrvRecord, b: SrvRecord) {
    a.priority < b.priority || (a.priority == b.priority && a.weight >= b.weight)
  }

  // ---- The walk ----

  function AfterQuestions(packet: seq<byte>, offset: nat, n: nat): Parsed<nat>
    decreases n
  {
    if n == 0 then Ok(offset)
    else
      match Labels(packet, offset, MAX_STEPS)
      case Err(error) => Err(BadName(error))
      case Ok(_) =>
        var end := InPlaceEnd(packet, offset) + 4;
        if end > |packet| then Err(Truncated) else AfterQuestions(packet, end, n - 1)
  }

  predicate IsSrv(kind: nat, class_: nat, size: nat) {
    kind == SRV && class_ == INTERNET && size >= 7
  }

  function Records(packet: seq<byte>, offset: nat, n: nat): Parsed<seq<SrvRecord>>
    decreases n
  {
    if n == 0 then Ok([])
    else
      match Labels(packet, offset, MAX_STEPS)
      case Err(error) => Err(BadName(error))
      case Ok(_) =>
        var start := InPlaceEnd(packet, offset) + 10;
        if start > |packet| then Err(Truncated)
        else if start + U16(packet, start - 2) > |packet| then Err(TruncatedRecord)
        else
          match RecordAt(packet, start)
          case Err(error) => Err(error)
          case Ok(found) => Found(found, Records(packet, start + U16(packet, start - 2), n - 1))
  }

  /** The record whose data starts at `start`, if it is of the wanted kind. */
  function RecordAt(packet: seq<byte>, start: nat): Parsed<seq<SrvRecord>>
    requires 10 <= start <= |packet| && start + U16(packet, start - 2) <= |packet|
  {
    if !IsSrv(U16(packet, start - 10), U16(packet, start - 8), U16(packet, start - 2)) then Ok([])
    else
      match Labels(packet, start + 6, MAX_STEPS)
      case Err(error) => Err(BadName(error))
      case Ok(target) =>
        Ok([SrvRecord(U16(packet, start), U16(packet, start + 2), U16(packet, start + 4), Join(target))])
  }

  /** The fixed part of an answer, octet by octet: type 33 and class 1 make it a service record when the
      data has room for more than the three numbers. */
  lemma ServiceHeader(packet: seq<byte>, start: nat)
    requires 10 <= start <= |packet|
    ensures IsSrv(U16(packet, start - 10), U16(packet, start - 8), U16(packet, start - 2)) <==>
      packet[start - 10..start - 6] == [0, 33, 0, 1] && FromBe(packet[start - 2..start]) > 6
  {
    U16BigEndian(packet, start - 2);
    assert packet[start - 10..start - 6] == [packet[start - 10], packet[start - 9], packet[start - 8], packet[start - 7]];
  }

  /** A response's header, octet by octet: the query's id, the response bit, the code, and the counts. */
  lemma ResponseHeader(packet: seq<byte>, id: nat)
    requires |packet| >= HEADER_SIZE
    ensures Response(packet, id) == Err(IdMismatch) <==> FromBe(packet[..2]) != id
    ensures Response(packet, id) == Err(NotAResponse) <==> FromBe(packet[..2]) == id && packet[2] < 0x80
    ensures forall code :: Response(packet, id) == Err(ServerError(code)) <==>
      FromBe(packet[..2]) == id && packet[2] >= 0x80 && code == packet[3] % 16 && code != 0
    ensures U16(packet, 4) == FromBe(packet[4..6]) && U16(packet, 6) == FromBe(packet[6..8])
  {
    hide AfterQuestions, Records, Sorted;
    U16BigEndian(packet, 0);
    U16BigEndian(packet, 4);
    U16BigEndian(packet, 6);
    assert packet[0..2] == packet[..2];
    var high, low: int := packet[2], packet[3];
    assert high * 256 + low == (high * 16 + low / 16) * 16 + low % 16;
    QuestionErrors(packet, HEADER_SIZE, U16(packet, 4));
    if AfterQuestions(packet, HEADER_SIZE, U16(packet, 4)).Ok? {
      RecordErrors(packet, AfterQuestions(packet, HEADER_SIZE, U16(packet, 4)).value, U16(packet, 6));
    }
  }

  predicate OfBody(error: ResponseError) {
    error.BadName? || error == Truncated || error == TruncatedRecord
  }

  lemma {:induction false} QuestionErrors(packet: seq<byte>, offset: nat, n: nat)
    ensures AfterQuestions(packet, offset, n).Err? ==> OfBody(AfterQuestions(packet, offset, n).error)
    decreases n
  {
    hide Labels, InPlaceEnd;
    if n > 0 {
      QuestionErrors(packet, InPlaceEnd(packet, offset) + 4, n - 1);
    }
  }

  lemma {:induction false} RecordErrors(packet: seq<byte>, offset: nat, n: nat)
    ensures Records(packet, offset, n).Err? ==> OfBody(Records(packet, offset, n).error)
    decreases n
  {
    hide Labels, InPlaceEnd;
    if n > 0 {
      var start := InPlaceEnd(packet, offset) + 10;
      if start <= |packet| {
        RecordErrors(packet, start + U16(packet, start - 2), n - 1);
      }
    }
  }

  function Found(records: seq<SrvRecord>, rest: Parsed<seq<SrvRecord>>): Parsed<seq<SrvRecord>> {
    match rest
    case Ok(more) => Ok(records + more)
    case Err(error) => Err(error)
  }

  function Response(packet: seq<byte>, expectedId: nat): Parsed<seq<SrvRecord>> {
    if |packet| < HEADER_SIZE then Err(TooShort)
    else if U16(packet, 0) != expectedId then Err(IdMismatch)
    else if U16(packet, 2) < 0x8000 then Err(NotAResponse)
    else if U16(packet, 2) % 16 != 0 then Err(ServerError(U16(packet, 2) % 16))
    else
      match AfterQuestions(packet, HEADER_SIZE, U16(packet, 4))
      case Err(error) => Err(error)
      case Ok(offset) =>
        match Records(packet, offset, U16(packet, 6))
        case Err(error) => Err(error)
        case Ok(records) => Ok(Sorted(records))
  }

  lemma FoundTwice(a: seq<SrvRecord>, b: seq<SrvRecord>, rest: Parsed<seq<SrvRecord>>)
    ensures Found(a, Found(b, rest)) == Found(a + b, rest)
    ensures Found([], rest) == rest && Found(a, Ok([])) == Ok(a)
  {
    assert a + [] == a;
    if rest.Ok? {
      assert [] + rest.value == rest.value;
      assert a + (b + rest.value) == a + b + rest.value;
    }
  }

  method Take(packet: seq<byte>, offset: nat, length: nat) returns (r: Parsed<seq<byte>>, next: nat)
    ensures r.Ok? <==> offset + length <= |packet|
    ensures r.Ok? ==> next == offset + length && r.value == packet[offset..next]
    ensures r.Err? ==> next == offset && r.error == Truncated
  {
    var end := offset + length;
    if end > |packet| {
      return Err(Truncated), offset;
    }
    r, next := Ok(packet[offset..end]), end;
  }

  method ReadQuestions(packet: seq<byte>, n: nat) returns (r: Parsed<nat>)
    ensures r == AfterQuestions(packet, HEADER_SIZE, n)
  {
    hide Labels, InPlaceEnd, Joined;
    var offset: nat := HEADER_SIZE;
    for i := 0 to n
      invariant AfterQuestions(packet, offset, n - i) == AfterQuestions(packet, HEADER_SIZE, n)
    {
      var name, next := ReadDnsName(packet, offset);
      NameRead(Labels(packet, offset, MAX_STEPS));
      if name.Err? {
        return Err(BadName(name.error));
      }
      var fixed, end := Take(packet, next, 4);
      if fixed.Err? {
        return Err(Truncated);
      }
      offset := end;
    }
    r := Ok(offset);
  }

  lemma NameRead(labels: Result<seq<string>, NameError>)
    ensures Joined(labels).Ok? == labels.Ok?
    ensures labels.Ok? ==> Joined(labels).value == Join(labels.value)
    ensures labels.Err? ==> Joined(labels).error == labels.error
  {
  }

  method ReadRecord(packet: seq<byte>, start: nat) returns (r: Parsed<seq<SrvRecord>>)
    requires 10 <= start <= |packet| && start + U16(packet, start - 2) <= |packet|
    ensures r == RecordAt(packet, start)
  {
    hide Labels, InPlaceEnd, Joined, Join;
    if U16(packet, start - 10) == SRV && U16(packet, start - 8) == INTERNET && U16(packet, start - 2) >= 7 {
      var target, _ := ReadDnsName(packet, start + 6);
      NameRead(Labels(packet, start + 6, MAX_STEPS));
      if target.Err? {
        return Err(BadName(target.error));
      }
      return Ok([SrvRecord(U16(packet, start), U16(packet, start + 2), U16(packet, start + 4), target.value)]);
    }
    r := Ok([]);
  }

  method ParseSrvResponse(packet: seq<byte>, expectedId: nat) returns (r: Parsed<seq<SrvRecord>>)
    ensures r == Response(packet, expectedId)
  {
    hide Labels, InPlaceEnd, Joined, Sorted, RecordAt, Found, U16;
    if |packet| < HEADER_SIZE {
      return Err(TooShort);
    }
    if U16(packet, 0) != expectedId {
      return Err(IdMismatch);
    }
    var flags := U16(packet, 2);
    if flags < 0x8000 {
      return Err(NotAResponse);
    }
    if flags % 16 != 0 {
      return Err(ServerError(flags % 16));
    }
    var first := ReadQuestions(packet, U16(packet, 4));
    if first.Err? {
      return Err(first.error);
    }
    var offset: nat, answers := first.value, U16(packet, 6);
    ghost var start := offset;
    var records: seq<SrvRecord> := [];
    FoundTwice([], [], Records(packet, offset, answers));
    for i := 0 to answers
      invariant Found(records, Records(packet, offset, answers - i)) == Records(packet, start, answers)
    {
      FoundError(records);
      var name, next := ReadDnsName(packet, offset);
      NameRead(Labels(packet, offset, MAX_STEPS));
      if name.Err? {
        return Err(BadName(name.error));
      }
      var fixed, data := Take(packet, next, 10);
      if fixed.Err? {
        return Err(Truncated);
      }
      var size := U16(packet, data - 2);
      if data + size > |packet| {
        return Err(TruncatedRecord);
      }
      var found := ReadRecord(packet, data);
      if found.Err? {
        return Err(found.error);
      }
      FoundTwice(records, found.value, Records(packet, data + size, answers - i - 1));
      records := records + found.value;
      offset := data + size;
    }
    FoundTwice(records, [], Ok([]));
    r := Ok(Sorted(records));
  }

  lemma FoundError(records: seq<SrvRecord>)
    ensures forall error :: Found(records, Err(error)) == Err(error)
  {
  }

  // ---- What a response carries ----

  /** A resource record (section 4.1.3 of RFC 1035): SRV data is spelled out, other data opaque. */
  datatype Answer =
    | Service(name: seq<string>, priority: nat, weight: nat, port: nat, target: seq<string>)
    | Other(name: seq<string>, kind: nat, class_: nat, data: seq<byte>)

  function Size(packet: seq<byte>, offset: nat): nat {
    var e := InPlaceEnd(packet, offset);
    if e + 10 > |packet| then 0 else U16(packet, e + 8)
  }

  /** The record stands at the offset, its names compressed in any way. */
  ghost predicate CarriesAnswer(packet: seq<byte>, offset: nat, a: Answer) {
    var e := InPlaceEnd(packet, offset);
    && SpelledInTime(packet, offset, a.name)
    && e + 10 + Size(packet, offset) <= |packet|
    && match a
       case Service(_, priority, weight, port, target) =>
         && IsSrv(U16(packet, e), U16(packet, e + 2), Size(packet, offset))
         && U16(packet, e + 10) == priority && U16(packet, e + 12) == weight && U16(packet, e + 14) == port
         && SpelledInTime(packet, e + 16, target)
       case Other(_, kind, class_, data) =>
         && U16(packet, e) == kind && U16(packet, e + 2) == class_
         && packet[e + 10..e + 10 + Size(packet, offset)] == data && !IsSrv(kind, class_, |data|)
  }

  ghost predicate CarriesAnswers(packet: seq<byte>, offset: nat, answers: seq<Answer>)
    decreases |answers|
  {
    answers == [] || (
      CarriesAnswer(packet, offset, answers[0])
      && CarriesAnswers(packet, InPlaceEnd(packet, offset) + 10 + Size(packet, offset), answers[1..]))
  }

  ghost predicate CarriesQuestions(packet: seq<byte>, offset: nat, questions: seq<seq<string>>)
    decreases |questions|
  {
    questions == [] || (
      SpelledInTime(packet, offset, questions[0]) && InPlaceEnd(packet, offset) + 4 <= |packet|
      && CarriesQuestions(packet, InPlaceEnd(packet, offset) + 4, questions[1..]))
  }

  function QuestionsEnd(packet: seq<byte>, offset: nat, n: nat): nat
    decreases n
  {
    if n == 0 then offset else QuestionsEnd(packet, InPlaceEnd(packet, offset) + 4, n - 1)
  }

  /** A packet that says: response to that query, no error, these questions, these answers. */
  ghost predicate Carries(packet: seq<byte>, id: nat, questions: seq<seq<string>>, answers: seq<Answer>) {
    && |packet| >= HEADER_SIZE && U16(packet, 0) == id && U16(packet, 2) >= 0x8000 && U16(packet, 2) % 16 == 0
    && U16(packet, 4) == |questions| && U16(packet, 6) == |answers|
    && CarriesQuestions(packet, HEADER_SIZE, questions)
    && CarriesAnswers(packet, QuestionsEnd(packet, HEADER_SIZE, |questions|), answers)
  }

  function Services(answers: seq<Answer>): seq<SrvRecord> {
    if answers == [] then []
    else (match answers[0]
          case Service(_, priority, weight, port, target) => [SrvRecord(priority, weight, port, Join(target))]
          case Other(_, _, _, _) => []) + Services(answers[1..])
  }

  lemma {:induction false} QuestionsWalked(packet: seq<byte>, offset: nat, questions: seq<seq<string>>)
    requires CarriesQuestions(packet, offset, questions)
    ensures AfterQuestions(packet, offset, |questions|) == Ok(QuestionsEnd(packet, offset, |questions|))
    decreases |questions|
  {
    hide Labels, SpelledInTime, InPlaceEnd;
    if questions != [] {
      ReadIffSpelled(packet, offset, questions[0]);
      QuestionsWalked(packet, InPlaceEnd(packet, offset) + 4, questions[1..]);
    }
  }

  lemma AnswerWalked(packet: seq<byte>, offset: nat, a: Answer)
    requires CarriesAnswer(packet, offset, a)
    ensures var start := InPlaceEnd(packet, offset) + 10;
      Readable(packet, offset) && RecordAt(packet, start) == Ok(Services([a]))
  {
    hide Labels, SpelledInTime, InPlaceEnd, Join;
    ReadIffSpelled(packet, offset, a.name);
    assert [a][1..] == [];
    assert a.Service? ==> Services([a]) == [SrvRecord(a.priority, a.weight, a.port, Join(a.target))];
    if a.Service? {
      ReadIffSpelled(packet, InPlaceEnd(packet, offset) + 16, a.target);
    }
  }

  predicate Readable(packet: seq<byte>, offset: nat) {
    Labels(packet, offset, MAX_STEPS).Ok?
  }

  lemma RecordsNext(packet: seq<byte>, offset: nat, n: nat, size: nat, found: seq<SrvRecord>, rest: seq<SrvRecord>)
    requires n > 0 && Readable(packet, offset)
    requires var start := InPlaceEnd(packet, offset) + 10;
      start + size <= |packet| && U16(packet, start - 2) == size && RecordAt(packet, start) == Ok(found)
      && Records(packet, start + size, n - 1) == Ok(rest)
    ensures Records(packet, offset, n) == Ok(found + rest)
  {
    hide Labels, InPlaceEnd, RecordAt, U16;
  }

  lemma FirstAnswer(packet: seq<byte>, offset: nat, answers: seq<Answer>)
    requires CarriesAnswers(packet, offset, answers) && answers != []
    ensures CarriesAnswer(packet, offset, answers[0])
    ensures CarriesAnswers(packet, InPlaceEnd(packet, offset) + 10 + Size(packet, offset), answers[1..])
  {
    hide Labels, SpelledInTime, InPlaceEnd, CarriesAnswer, Size;
  }

  lemma {:induction false} AnswersWalked(packet: seq<byte>, offset: nat, answers: seq<Answer>)
    requires CarriesAnswers(packet, offset, answers)
    ensures Records(packet, offset, |answers|) == Ok(Services(answers))
    decreases |answers|
  {
    hide Labels, InPlaceEnd, RecordAt;
    if answers == [] {
      return;
    }
    hide SpelledInTime, Services, U16, CarriesAnswer, CarriesAnswers, Size, Records;
    var first, rest := answers[0], answers[1..];
    FirstAnswer(packet, offset, answers);
    AnswerWalked(packet, offset, first);
    AnswerFits(packet, offset, first);
    var size := Size(packet, offset);
    AnswersWalked(packet, InPlaceEnd(packet, offset) + 10 + size, rest);
    RecordsNext(packet, offset, |answers|, size, Services([first]), Services(rest));
    ServicesFirst(answers);
  }

  lemma AnswerFits(packet: seq<byte>, offset: nat, a: Answer)
    requires CarriesAnswer(packet, offset, a)
    ensures var start := InPlaceEnd(packet, offset) + 10;
      start <= |packet| && U16(packet, start - 2) == Size(packet, offset) && start + Size(packet, offset) <= |packet|
  {
    hide InPlaceEnd, SpelledInTime;
  }

  lemma ServicesFirst(answers: seq<Answer>)
    requires answers != []
    ensures Services(answers) == Services([answers[0]]) + Services(answers[1..])
  {
    assert [answers[0]][1..] == [];
  }

  /** The records found are those the response carries, however its names are compressed. */
  lemma ResponseMeaning(packet: seq<byte>, id: nat, questions: seq<seq<string>>, answers: seq<Answer>)
    requires Carries(packet, id, questions, answers)
    ensures Response(packet, id) == Ok(Sorted(Services(answers)))
  {
    hide Records, AfterQuestions, Services, Sorted, QuestionsEnd;
    QuestionsWalked(packet, HEADER_SIZE, questions);
    AnswersWalked(packet, QuestionsEnd(packet, HEADER_SIZE, |questions|), answers);
  }

  lemma {:induction false} QuestionsFound(packet: seq<byte>, offset: nat, n: nat) returns (questions: seq<seq<string>>)
    requires AfterQuestions(packet, offset, n).Ok?
    ensures |questions| == n && CarriesQuestions(packet, offset, questions)
    ensures AfterQuestions(packet, offset, n) == Ok(QuestionsEnd(packet, offset, n))
    decreases n
  {
    hide Labels, SpelledInTime, InPlaceEnd;
    questions := [];
    if n > 0 {
      var rest := QuestionsFound(packet, InPlaceEnd(packet, offset) + 4, n - 1);
      ReadIffSpelled(packet, offset, Labels(packet, offset, MAX_STEPS).value);
      questions := [Labels(packet, offset, MAX_STEPS).value] + rest;
      assert questions[1..] == rest;
    }
  }

  lemma AnswerFound(packet: seq<byte>, offset: nat) returns (a: Answer)
    requires Labels(packet, offset, MAX_STEPS).Ok?
    requires var start := InPlaceEnd(packet, offset) + 10;
      start <= |packet| && start + U16(packet, start - 2) <= |packet| && RecordAt(packet, start).Ok?
    ensures CarriesAnswer(packet, offset, a)
  {
    hide Labels, SpelledInTime, InPlaceEnd, Join, U16;
    var e, name := InPlaceEnd(packet, offset), Labels(packet, offset, MAX_STEPS).value;
    ReadIffSpelled(packet, offset, name);
    if IsSrv(U16(packet, e), U16(packet, e + 2), U16(packet, e + 8)) {
      var target := TargetFound(packet, e + 10);
      a := Service(name, U16(packet, e + 10), U16(packet, e + 12), U16(packet, e + 14), target);
    } else {
      hide RecordAt;
      a := Other(name, U16(packet, e), U16(packet, e + 2), packet[e + 10..e + 10 + U16(packet, e + 8)]);
      assert |a.data| == U16(packet, e + 8);
    }
  }

  lemma TargetFound(packet: seq<byte>, start: nat) returns (target: seq<string>)
    requires 10 <= start <= |packet| && start + U16(packet, start - 2) <= |packet| && RecordAt(packet, start).Ok?
    requires IsSrv(U16(packet, start - 10), U16(packet, start - 8), U16(packet, start - 2))
    ensures SpelledInTime(packet, start + 6, target)
  {
    hide SpelledInTime, Join, U16;
    target := Labels(packet, start + 6, MAX_STEPS).value;
    ReadIffSpelled(packet, start + 6, target);
  }

  lemma {:induction false} AnswersFound(packet: seq<byte>, offset: nat, n: nat) returns (answers: seq<Answer>)
    requires Records(packet, offset, n).Ok?
    ensures |answers| == n && CarriesAnswers(packet, offset, answers)
    decreases n
  {
    hide Labels, SpelledInTime, InPlaceEnd, RecordAt, U16, CarriesAnswer;
    answers := [];
    if n > 0 {
      var start := InPlaceEnd(packet, offset) + 10;
      var a := AnswerFound(packet, offset);
      var rest := AnswersFound(packet, start + U16(packet, start - 2), n - 1);
      answers := [a] + rest;
      assert answers[1..] == rest;
    }
  }

  /** A response is accepted exactly when there is something it carries. */
  lemma ResponseAccepted(packet: seq<byte>, id: nat)
    ensures Response(packet, id).Ok? <==> exists questions, answers :: Carries(packet, id, questions, answers)
  {
    if Response(packet, id).Ok? {
      hide Records, AfterQuestions, Sorted, QuestionsEnd, CarriesQuestions, CarriesAnswers, U16;
      var questions := QuestionsFound(packet, HEADER_SIZE, U16(packet, 4));
      var answers := AnswersFound(packet, QuestionsEnd(packet, HEADER_SIZE, |questions|), U16(packet, 6));
      assert Carries(packet, id, questions, answers);
    }
    if questions, answers :| Carries(packet, id, questions, answers) {
      hide Response, Carries;
      ResponseMeaning(packet, id, questions, answers);
    }
  }
}
