/**
  What ECS injection does to every well-formed DNS message, and what the other walker then reads.
*/
module DnsWireTheorems {
  import opened Wrappers
  import opened Bytes
  import opened DnsWire
  import IpRanges

  // ---------------------------------------------------------------- walking encoded messages

  lemma {:induction false} NameAt(msg: ByteString, pos: nat, name: ByteString, rest: ByteString)
    requires ValidName(name)
    requires pos <= |msg| && msg[pos..] == name + rest
    ensures SkipName(msg, pos) == Some(pos + |name|)
    ensures pos + |name| <= |msg| && msg[pos + |name|..] == rest
    decreases name
  {
    assert msg[pos] == msg[pos..][0] == name[0];
    PointerBytes(name[0]);
    if 0 < name[0] <= 63 && name != [0] {
      var k := 1 + name[0];
      assert msg[pos + k..] == msg[pos..][k..] == name[k..] + rest;
      NameAt(msg, pos + k, name[k..], rest);
    }
    assert msg[pos + |name|..] == msg[pos..][|name|..];
  }

  /** The fields of a record head, read where it was written. */
  lemma HeadFields(msg: ByteString, head: nat, rtype: nat, class_: nat, ttl: nat, rdlength: nat, rest: ByteString)
    requires rtype < U16_LIMIT && class_ < U16_LIMIT && rdlength < U16_LIMIT
    requires head <= |msg| && msg[head..] == RecordHead(rtype, class_, ttl, rdlength) + rest
    ensures head + 10 <= |msg| && msg[head + 10..] == rest
    ensures CountAt(msg, head) == rtype && CountAt(msg, head + 2) == class_ && CountAt(msg, head + 8) == rdlength
  {
    var h, tail := RecordHead(rtype, class_, ttl, rdlength), msg[head..];
    assert h[0] == Word(rtype)[0] && h[1] == Word(rtype)[1] && h[2] == Word(class_)[0] && h[3] == Word(class_)[1];
    assert h[8] == Word(rdlength)[0] && h[9] == Word(rdlength)[1];
    WordRoundTrip(rtype);
    WordRoundTrip(class_);
    WordRoundTrip(rdlength);
    hide RecordHead, Word;
    assert msg[head + 0] == tail[0] && msg[head + 1] == tail[1] && msg[head + 2] == tail[2] && msg[head + 3] == tail[3];
    assert msg[head + 8] == tail[8] && msg[head + 9] == tail[9];
    assert msg[head + 10..] == tail[10..];
  }

  lemma RecordAt(msg: ByteString, pos: nat, r: Record, rest: ByteString)
    requires ValidRecord(r)
    requires pos <= |msg| && msg[pos..] == EncodeRecord(r) + rest
    ensures var head := pos + |r.name|; var end := pos + |EncodeRecord(r)|;
            && HeadAt(msg, pos) == Some(head) && RecordEnd(msg, head) == end <= |msg| && msg[end..] == rest
            && CountAt(msg, head) == r.rtype && CountAt(msg, head + 2) == r.class_
            && msg[head + 10..end] == r.rdata
  {
    var h := RecordHead(r.rtype, r.class_, r.ttl, |r.rdata|);
    var head := pos + |r.name|;
    hide RecordHead, SkipName, ValidName;
    assert msg[pos..] == r.name + (h + (r.rdata + rest));
    NameAt(msg, pos, r.name, h + (r.rdata + rest));
    HeadFields(msg, head, r.rtype, r.class_, r.ttl, |r.rdata|, r.rdata + rest);
    var tail, end := msg[head + 10..], head + 10 + |r.rdata|;
    assert msg[head + 10..end] == tail[..|r.rdata|];
    assert msg[end..] == tail[|r.rdata|..];
  }

  lemma {:induction false} RecordsAt(msg: ByteString, pos: nat, rs: seq<Record>, rest: ByteString)
    requires ValidRecords(rs)
    requires pos <= |msg| && msg[pos..] == EncodeRecords(rs) + rest
    ensures var end := pos + |EncodeRecords(rs)|;
            end <= |msg| && msg[end..] == rest && SkipRecords(msg, pos, |rs|) == Some(end)
    decreases rs
  {
    hide EncodeRecord, HeadAt, RecordEnd, CountAt, ValidRecord;
    if rs == [] {
      assert [] + rest == rest;
    } else {
      var r, more := rs[0], rs[1..];
      assert r in rs && ValidRecords(more);
      Associative(EncodeRecord(r), EncodeRecords(more), rest);
      RecordAt(msg, pos, r, EncodeRecords(more) + rest);
      RecordsAt(msg, pos + |EncodeRecord(r)|, more, rest);
    }
  }

  ghost predicate ValidQuestions(qs: seq<Question>)
  {
    forall q | q in qs :: ValidName(q.name)
  }

  lemma {:induction false} QuestionsAt(msg: ByteString, pos: nat, qs: seq<Question>, rest: ByteString)
    requires ValidQuestions(qs)
    requires pos <= |msg| && msg[pos..] == EncodeQuestions(qs) + rest
    ensures var end := pos + |EncodeQuestions(qs)|;
            end <= |msg| && msg[end..] == rest && SkipQuestions(msg, pos, |qs|) == Some(end)
    decreases qs
  {
    hide SkipName, ValidName, Word;
    if qs == [] {
      assert [] + rest == rest;
    } else {
      var q, more := qs[0], qs[1..];
      assert q in qs && ValidQuestions(more);
      var tail := EncodeQuestions(more) + rest;
      assert msg[pos..] == q.name + (Word(q.qtype) + Word(q.qclass) + tail);
      NameAt(msg, pos, q.name, Word(q.qtype) + Word(q.qclass) + tail);
      var next := pos + |q.name| + 4;
      assert msg[next..] == msg[pos + |q.name|..][4..] == tail;
      QuestionsAt(msg, next, more, rest);
    }
  }

  /** The header counts of an encoded message, whatever follows the header. */
  lemma HeaderAt(m: Message, rest: ByteString)
    requires Valid(m)
    ensures var msg := EncodeHeader(m) + rest;
            && CountAt(msg, 4) == |m.questions| && CountAt(msg, 6) == |m.answers|
            && CountAt(msg, 8) == |m.authority| && CountAt(msg, 10) == |m.additional|
            && msg[HEADER_LEN..] == rest && msg[..HEADER_LEN] == EncodeHeader(m)
  {
    WordRoundTrip(|m.questions|);
    WordRoundTrip(|m.answers|);
    WordRoundTrip(|m.authority|);
    WordRoundTrip(|m.additional|);
  }

  /** Both walkers find the additional section of an encoded message. */
  lemma AdditionalAt(m: Message, rest: ByteString)
    requires Valid(m)
    ensures var msg := EncodeHeader(m) + (EncodeMiddle(m) + rest);
            var start := HEADER_LEN + |EncodeMiddle(m)|;
            && AdditionalStart(msg) == Some(start) && start <= |msg| && msg[start..] == rest
            && CountAt(msg, 10) == |m.additional|
  {
    hide EncodeHeader, EncodeQuestions, EncodeRecords, SkipQuestions, SkipRecords, CountAt, ValidRecord, ValidName;
    var qs, rs := EncodeQuestions(m.questions), EncodeRecords(m.answers + m.authority);
    var msg := EncodeHeader(m) + (EncodeMiddle(m) + rest);
    HeaderAt(m, EncodeMiddle(m) + rest);
    Associative(qs, rs, rest);
    QuestionsAt(msg, HEADER_LEN, m.questions, rs + rest);
    RecordsAt(msg, HEADER_LEN + |qs|, m.answers + m.authority, rest);
  }

  // ---------------------------------------------------------------- scanning for OPT

  /** None of the records has the type 41 of OPT. */
  ghost predicate NoOpt(rs: seq<Record>)
  {
    forall r | r in rs :: r.rtype != 41
  }

  lemma {:induction false} ScanQuiet(msg: ByteString, pos: nat, rs: seq<Record>, opt: Option<nat>)
    requires ValidRecords(rs) && NoOpt(rs)
    requires pos <= |msg| && msg[pos..] == EncodeRecords(rs)
    ensures pos + |EncodeRecords(rs)| == |msg|
    ensures ScanAdditional(msg, pos, |rs|, opt) == Some(Scan(|msg|, opt))
    decreases rs
  {
    hide EncodeRecord, HeadAt, RecordEnd, CountAt, ValidRecord;
    if rs != [] {
      var r, more := rs[0], rs[1..];
      assert r in rs && ValidRecords(more) && NoOpt(more);
      RecordAt(msg, pos, r, EncodeRecords(more));
      ScanQuiet(msg, pos + |EncodeRecord(r)|, more, opt);
    }
  }

  lemma {:induction false} ScanFindsLast(msg: ByteString, pos: nat, front: seq<Record>, o: Record, back: seq<Record>,
                                         opt: Option<nat>)
    requires ValidRecords(front) && ValidRecord(o) && ValidRecords(back) && o.rtype == 41 && NoOpt(back)
    requires pos <= |msg| && msg[pos..] == EncodeRecords(front) + (EncodeRecord(o) + EncodeRecords(back))
    ensures ScanAdditional(msg, pos, |front| + 1 + |back|, opt)
         == Some(Scan(|msg|, Some(pos + |EncodeRecords(front)| + |o.name|)))
    decreases front
  {
    hide EncodeRecord, HeadAt, RecordEnd, CountAt, ValidRecord;
    if front == [] {
      assert msg[pos..] == EncodeRecord(o) + EncodeRecords(back);
      RecordAt(msg, pos, o, EncodeRecords(back));
      ScanQuiet(msg, pos + |EncodeRecord(o)|, back, Some(pos + |o.name|));
    } else {
      var r, more := front[0], front[1..];
      assert r in front && ValidRecords(more);
      var rest := EncodeRecord(o) + EncodeRecords(back);
      Associative(EncodeRecord(r), EncodeRecords(more), rest);
      RecordAt(msg, pos, r, EncodeRecords(more) + rest);
      ScanFindsLast(msg, pos + |EncodeRecord(r)|, more, o, back,
                    if r.rtype == 41 then Some(pos + |r.name|) else opt);
    }
  }

  lemma {:induction false} EncodeRecordsConcat(a: seq<Record>, b: seq<Record>)
    ensures EncodeRecords(a + b) == EncodeRecords(a) + EncodeRecords(b)
  {
    if a == [] {
      assert [] + b == b;
    } else {
      assert (a + b)[1..] == a[1..] + b;
      EncodeRecordsConcat(a[1..], b);
    }
  }

  lemma EncodeRecordsSnoc(rs: seq<Record>, r: Record)
    ensures EncodeRecords(rs + [r]) == EncodeRecords(rs) + EncodeRecord(r)
  {
    EncodeRecordsConcat(rs, [r]);
    assert EncodeRecords([r]) == EncodeRecord(r) + EncodeRecords([]);
  }

  // ---------------------------------------------------------------- no OPT record yet

  lemma SplitEncode(m: Message)
    ensures Encode(m) == EncodeHeader(m) + (EncodeMiddle(m) + EncodeRecords(m.additional))
  {
  }

  /**
    Without an OPT record, injection appends one and counts it: the result is the encoding of
    the same message with that record behind its additional section.
    */
  lemma InjectionAppendsOpt(m: Message, option: ByteString)
    requires Valid(m) && NoOpt(m.additional)
    ensures SlicesInside(Encode(m))
    ensures InjectEcs(Encode(m), option)
         == Ok(Encode(m.(additional := m.additional + [Record([0], 41, 1232, 0, option)])))
  {
    hide Encode, EncodeHeader, EncodeMiddle, EncodeRecords, EncodeRecord, AdditionalStart, ScanAdditional, Word,
        ValidRecord,
         ValidName;
    var msg, start := Encode(m), HEADER_LEN + |EncodeMiddle(m)|;
    var rr := NewOptRecord(option);
    SplitEncode(m);
    AdditionalAt(m, EncodeRecords(m.additional));
    ScanQuiet(msg, start, m.additional, None);
    EncodeRecordsSnoc(m.additional, rr);
    var m' := m.(additional := m.additional + [rr]);
    SplitEncode(m');
    AppendedBytes(m, option);
    assert msg[|msg|..] == [] && msg[12..|msg|] == msg[12..];
  }

  lemma AppendedBytes(m: Message, option: ByteString)
    requires Valid(m)
    ensures Encode(m)[..10] + Word(|m.additional| + 1) + Encode(m)[12..] + EncodeRecord(NewOptRecord(option)) + []
            == Encode(m.(additional := m.additional + [NewOptRecord(option)]))
  {
    hide EncodeRecord, EncodeMiddle;
    var msg, rr := Encode(m), NewOptRecord(option);
    var m' := m.(additional := m.additional + [rr]);
    EncodeRecordsSnoc(m.additional, rr);
    var h, body := EncodeHeader(m), EncodeMiddle(m) + EncodeRecords(m.additional);
    SplitEncode(m);
    assert msg[..10] == h[..10] && msg[12..] == body;
    assert EncodeHeader(m') == h[..10] + Word(|m.additional| + 1);
    assert EncodeMiddle(m') == EncodeMiddle(m) by {
      assert m'.questions == m.questions && m'.answers + m'.authority == m.answers + m.authority;
      MiddleIgnoresAdditional(m, m');
    }
    Associative(EncodeMiddle(m), EncodeRecords(m.additional), EncodeRecord(rr));
  }

  lemma MiddleIgnoresAdditional(m: Message, n: Message)
    requires m.questions == n.questions && m.answers == n.answers && m.authority == n.authority
    ensures EncodeMiddle(m) == EncodeMiddle(n)
  {
  }

  /** The message stays well formed as long as the count does not wrap. */
  lemma AppendedIsValid(m: Message, option: ByteString)
    requires Valid(m) && |option| < U16_LIMIT
    ensures Valid(m.(additional := m.additional + [Record([0], 41, 1232, 0, option)])) <==> |m.additional| < 65535
  {
    var m' := m.(additional := m.additional + [NewOptRecord(option)]);
    assert forall r :: r in m'.additional <==> r in m.additional || r == NewOptRecord(option);
  }

  // ---------------------------------------------------------------- an OPT record is there

  /** The message whose OPT record `o` carries the option as well. */
  function Extended(m: Message, front: seq<Record>, o: Record, back: seq<Record>, option: ByteString): Message
  {
    m.(additional := front + [o.(rdata := o.rdata + option)] + back)
  }

  /** The parts of a valid additional section are valid. */
  lemma PartsValid(m: Message, front: seq<Record>, o: Record, back: seq<Record>)
    requires Valid(m) && m.additional == front + [o] + back
    ensures ValidRecords(front) && ValidRecord(o) && ValidRecords(back)
  {
    hide ValidRecord;
    assert forall r | r in front :: r in m.additional;
    assert forall r | r in back :: r in m.additional;
    assert o == m.additional[|front|] && o in m.additional;
  }

  lemma EncodeAround(front: seq<Record>, o: Record, back: seq<Record>)
    ensures EncodeRecords(front + [o] + back) == EncodeRecords(front) + (EncodeRecord(o) + EncodeRecords(back))
  {
    EncodeRecordsConcat(front + [o], back);
    EncodeRecordsSnoc(front, o);
    hide *;
    Associative(EncodeRecords(front), EncodeRecord(o), EncodeRecords(back));
  }

  /** The scan of an encoded message ends at its end, with the last OPT record found. */
  lemma OptFound(m: Message, front: seq<Record>, o: Record, back: seq<Record>)
    requires Valid(m) && m.additional == front + [o] + back && o.rtype == 41 && NoOpt(back)
    ensures SlicesInside(Encode(m))
    ensures ScanMessage(Encode(m))
         == Some(Scan(|Encode(m)|, Some(HEADER_LEN + |EncodeMiddle(m)| + |EncodeRecords(front)| + |o.name|)))
  {
    hide Encode, EncodeHeader, EncodeMiddle, EncodeRecords, EncodeRecord, AdditionalStart, ScanAdditional, CountAt,
        RecordEnd,
         ValidRecord, ValidName;
    var msg, start := Encode(m), HEADER_LEN + |EncodeMiddle(m)|;
    SplitEncode(m);
    AdditionalAt(m, EncodeRecords(m.additional));
    PartsValid(m, front, o, back);
    EncodeAround(front, o, back);
    assert |m.additional| == |front| + 1 + |back|;
    ScanFindsLast(msg, start, front, o, back, None);
  }

  lemma InjectAfterScan(msg: ByteString, option: ByteString, scan: Scan)
    requires |msg| >= HEADER_LEN && SlicesInside(msg) && ScanMessage(msg) == Some(scan)
    ensures scan.opt.Some? ==> scan.opt.value + 10 <= |msg| && RecordEnd(msg, scan.opt.value) <= scan.end
    ensures HEADER_LEN <= scan.end <= |msg| && InjectEcs(msg, option) == Ok(Inject(msg, scan, option))
  {
    OptInsideScan(msg, AdditionalStart(msg).value, CountAt(msg, 10), None);
    hide AdditionalStart, ScanAdditional, Inject, RecordEnd, CountAt;
  }

  /** What `Inject` makes of a message that ends where the scan ended. */
  lemma InjectAtEnd(msg: ByteString, head: nat, option: ByteString)
    requires HEADER_LEN <= |msg| && head + 10 <= |msg| && RecordEnd(msg, head) <= |msg|
    ensures Inject(msg, Scan(|msg|, Some(head)), option)
         == msg[..head + 8] + Word(RecordEnd(msg, head) - (head + 10) + |option|) + msg[head + 10..RecordEnd(msg, head)]
            + option + []
  {
    hide RecordEnd, Word;
    assert msg[|msg|..] == [];
  }

  /**
    With `o` the last OPT record, injection extends its RDATA and RDLENGTH, and ends the
    message there.
    */
  lemma InjectionExtendsOpt(m: Message, front: seq<Record>, o: Record, back: seq<Record>, option: ByteString)
    requires Valid(m) && m.additional == front + [o] + back && o.rtype == 41 && NoOpt(back)
    ensures SlicesInside(Encode(m))
    ensures InjectEcs(Encode(m), option)
         == Ok(EncodeHeader(m) + (EncodeMiddle(m) + EncodeRecords(front + [o.(rdata := o.rdata + option)])))
  {
    hide *;
    var o' := o.(rdata := o.rdata + option);
    OptFound(m, front, o, back);
    SplitEncode(m);
    EncodeAround(front, o, back);
    EncodeRecordsSnoc(front, o');
    var before := CutBefore(m, front, EncodeRecord(o) + EncodeRecords(back));
    var again := CutBefore(m, front, EncodeRecord(o'));
    InjectAtOpt(m, front, o, back, option, before);
  }

  lemma InjectAtOpt(m: Message, front: seq<Record>, o: Record, back: seq<Record>, option: ByteString,
      before: ByteString)
    requires Valid(m) && m.additional == front + [o] + back
    requires Encode(m) == before + (EncodeRecord(o) + EncodeRecords(back)) && |before| >= HEADER_LEN
    requires SlicesInside(Encode(m)) && ScanMessage(Encode(m)) == Some(Scan(|Encode(m)|, Some(|before| + |o.name|)))
    ensures InjectEcs(Encode(m), option) == Ok(before + EncodeRecord(o.(rdata := o.rdata + option)))
  {
    PartsValid(m, front, o, back);
    hide *;
    PatchAtEnd(Encode(m), before, o, EncodeRecords(back), option);
    InjectAfterScan(Encode(m), option, Scan(|Encode(m)|, Some(|before| + |o.name|)));
  }

  lemma PatchAtEnd(msg: ByteString, before: ByteString, o: Record, after: ByteString, option: ByteString)
    requires ValidRecord(o) && |before| >= HEADER_LEN && msg == before + (EncodeRecord(o) + after)
    ensures var head := |before| + |o.name|;
            && head + 10 <= |msg| && RecordEnd(msg, head) <= |msg|
            && Inject(msg, Scan(|msg|, Some(head)), option) == before + EncodeRecord(o.(rdata := o.rdata + option))
  {
    hide *;
    PatchAt(before, o, after, option);
    InjectAtEnd(msg, |before| + |o.name|, option);
  }

  lemma Nested<T>(a: seq<T>, b: seq<T>, c: seq<T>, d: seq<T>)
    ensures a + (b + (c + d)) == a + (b + c) + d
  {
  }

  /** A message cut in front of one of its additional records. */
  lemma CutBefore(m: Message, front: seq<Record>, tail: ByteString) returns (before: ByteString)
    ensures |before| == HEADER_LEN + |EncodeMiddle(m)| + |EncodeRecords(front)|
    ensures EncodeHeader(m) + (EncodeMiddle(m) + (EncodeRecords(front) + tail)) == before + tail
    ensures before == EncodeHeader(m) + (EncodeMiddle(m) + EncodeRecords(front))
  {
    before := EncodeHeader(m) + (EncodeMiddle(m) + EncodeRecords(front));
    Nested(EncodeHeader(m), EncodeMiddle(m), EncodeRecords(front), tail);
  }

  /** Rewriting RDLENGTH and appending to RDATA of a record where it stands extends the record. */
  lemma PatchAt(before: ByteString, o: Record, after: ByteString, option: ByteString)
    requires ValidRecord(o)
    ensures var msg := before + (EncodeRecord(o) + after); var head := |before| + |o.name|;
            && head + 10 <= |msg| && RecordEnd(msg, head) <= |msg|
            && msg[..head + 8] + Word(RecordEnd(msg, head) - (head + 10) + |option|)
                + msg[head + 10..RecordEnd(msg, head)]
               + option + []
            == before + EncodeRecord(o.(rdata := o.rdata + option))
  {
    var msg := before + (EncodeRecord(o) + after);
    assert msg[|before|..] == EncodeRecord(o) + after;
    RecordAt(msg, |before|, o, after);
    PatchedRecord(msg, before, o, after, option);
    hide EncodeRecord, ValidRecord, HeadAt, CountAt, Word;
  }

  /** Rewriting RDLENGTH and RDATA of a record in place gives the extended record. */
  lemma PatchedRecord(msg: ByteString, before: ByteString, o: Record, after: ByteString, option: ByteString)
    requires msg == before + (EncodeRecord(o) + after)
    ensures var head := |before| + |o.name|;
            head + 10 + |o.rdata| <= |msg| &&
            msg[..head + 8] + Word(|o.rdata| + |option|) + o.rdata + option + []
            == before + EncodeRecord(o.(rdata := o.rdata + option))
  {
    var head := |before| + |o.name|;
    var front := Word(o.rtype) + Word(o.class_) + BE(o.ttl, 4);
    assert EncodeRecord(o) == o.name + (front + Word(|o.rdata|)) + o.rdata;
    assert msg[..head + 8] == before + (o.name + front);
    assert EncodeRecord(o.(rdata := o.rdata + option))
        == o.name + (front + Word(|o.rdata| + |option|)) + (o.rdata + option);
  }

  /** The extended message is well formed exactly when its RDLENGTH does not wrap. */
  lemma ExtendedIsValidIff(m: Message, front: seq<Record>, o: Record, back: seq<Record>, option: ByteString)
    requires Valid(m) && m.additional == front + [o] + back
    ensures Valid(Extended(m, front, o, back, option)) <==> |o.rdata| + |option| < U16_LIMIT
  {
    var o' := o.(rdata := o.rdata + option);
    var m' := Extended(m, front, o, back, option);
    PartsValid(m, front, o, back);
    assert ValidRecord(o') <==> |o.rdata| + |option| < U16_LIMIT;
    hide ValidRecord;
    assert m'.additional[|front|] == o';
    assert forall r | r in m'.additional :: r in front || r == o' || r in back;
  }

  /**
    Injection yields the encoding of the extended message exactly when the last OPT record is
    the last additional record, since the records behind it are lost; that message is well
    formed exactly when the new RDLENGTH fits as well.
    */
  lemma ExtensionKeepsMessageIff(m: Message, front: seq<Record>, o: Record, back: seq<Record>, option: ByteString)
    requires Valid(m) && m.additional == front + [o] + back && o.rtype == 41 && NoOpt(back)
    ensures SlicesInside(Encode(m))
    ensures InjectEcs(Encode(m), option) == Ok(Encode(Extended(m, front, o, back, option))) <==> back == []
    ensures Valid(Extended(m, front, o, back, option))
         && InjectEcs(Encode(m), option) == Ok(Encode(Extended(m, front, o, back, option)))
       <==> back == [] && |o.rdata| + |option| < U16_LIMIT
  {
    ExtendedIsValidIff(m, front, o, back, option);
    var o' := o.(rdata := o.rdata + option);
    var m' := Extended(m, front, o, back, option);
    InjectionExtendsOpt(m, front, o, back, option);
    SplitEncode(m');
    assert EncodeHeader(m') == EncodeHeader(m) by {
      assert |m'.additional| == |m.additional|;
    }
    MiddleIgnoresAdditional(m, m');
    EncodeRecordsConcat(front + [o'], back);
    RecordsTakeSpace(back);
    if back == [] {
      assert front + [o'] + back == front + [o'];
    }
    assert m'.additional == front + [o'] + back;
    hide *;
    Nested(EncodeHeader(m), EncodeMiddle(m), EncodeRecords(front + [o']), EncodeRecords(back));
  }

  lemma RecordsTakeSpace(rs: seq<Record>)
    ensures EncodeRecords(rs) == [] <==> rs == []
  {
    if rs != [] {
      assert |EncodeRecord(rs[0])| >= 10;
    }
  }

  /** A message that loses its last record: an OPT record followed by one other. */
  lemma RecordLost(option: ByteString)
    ensures var opt, other := Record([0], 41, 4096, 0, []), Record([0], 1, 1, 0, []);
            var m := Message(0, 0, [], [], [], [opt, other]);
            Valid(m) && SlicesInside(Encode(m))
                && InjectEcs(Encode(m), option) != Ok(Encode(Extended(m, [], opt, [other], option)))
  {
    var opt, other := Record([0], 41, 4096, 0, []), Record([0], 1, 1, 0, []);
    var m := Message(0, 0, [], [], [], [opt, other]);
    assert ValidRecord(opt) && ValidRecord(other);
    hide InjectEcs, Encode, Extended, ValidRecord;
    assert forall r | r in m.additional :: r == opt || r == other;
    assert m.additional == [] + [opt] + [other];
    assert NoOpt([other]);
    ExtensionKeepsMessageIff(m, [], opt, [other], option);
  }

  // ---------------------------------------------------------------- the size the other walker reads

  lemma {:induction false} SizeIsFirstOpt(msg: ByteString, pos: nat, front: seq<Record>, o: Record, rest: ByteString,
      n: nat)
    requires ValidRecords(front) && NoOpt(front) && ValidRecord(o) && o.rtype == 41 && n > |front|
    requires pos <= |msg| && msg[pos..] == EncodeRecords(front) + (EncodeRecord(o) + rest)
    ensures FirstOptSize(msg, pos, n) == Some(o.class_)
    decreases front
  {
    hide EncodeRecord, HeadAt, RecordEnd, CountAt, ValidRecord;
    if front == [] {
      assert msg[pos..] == EncodeRecord(o) + rest;
      RecordAt(msg, pos, o, rest);
    } else {
      var r, more := front[0], front[1..];
      assert r in front && ValidRecords(more) && NoOpt(more);
      Associative(EncodeRecord(r), EncodeRecords(more), EncodeRecord(o) + rest);
      RecordAt(msg, pos, r, EncodeRecords(more) + (EncodeRecord(o) + rest));
      SizeIsFirstOpt(msg, pos + |EncodeRecord(r)|, more, o, rest, n - 1);
    }
  }

  /** The walker reads the class of the first OPT record that the bytes hold. */
  lemma SizeOfEncoding(m: Message, front: seq<Record>, o: Record, rest: ByteString)
    requires Valid(m) && ValidRecords(front) && NoOpt(front) && ValidRecord(o) && o.rtype == 41
    requires |m.additional| > |front|
    ensures EdnsUdpSize(EncodeHeader(m) + (EncodeMiddle(m) + (EncodeRecords(front) + (EncodeRecord(o) + rest))))
          == Some(o.class_)
  {
    var tail := EncodeRecords(front) + (EncodeRecord(o) + rest);
    var msg := EncodeHeader(m) + (EncodeMiddle(m) + tail);
    AdditionalAt(m, tail);
    hide AdditionalStart;
    SizeIsFirstOpt(msg, HEADER_LEN + |EncodeMiddle(m)|, front, o, rest, |m.additional|);
  }

  /** After injecting into a message without OPT, the other walker reads 1232. */
  lemma InjectedSize(m: Message, option: ByteString)
    requires Valid(m) && NoOpt(m.additional) && |m.additional| < U16_LIMIT - 1 && |option| < U16_LIMIT
    ensures SlicesInside(Encode(m)) && InjectEcs(Encode(m), option).Ok?
    ensures EdnsUdpSize(InjectEcs(Encode(m), option).value) == Some(1232)
  {
    var o := NewOptRecord(option);
    var m' := m.(additional := m.additional + [o]);
    InjectionAppendsOpt(m, option);
    AppendedIsValid(m, option);
    SplitEncode(m');
    EncodeRecordsSnoc(m.additional, o);
    assert EncodeRecord(o) + [] == EncodeRecord(o);
    SizeOfEncoding(m', m.additional, o, []);
  }

  /** The records up to the first OPT record. */
  function FirstOpt(rs: seq<Record>): (k: nat)
    ensures k <= |rs|
    ensures NoOpt(rs[..k])
    ensures k < |rs| ==> rs[k].rtype == 41
  {
    if rs == [] || rs[0].rtype == 41 then 0
    else
      var k := FirstOpt(rs[1..]);
      assert rs[..k + 1] == [rs[0]] + rs[1..][..k];
      k + 1
  }

  lemma TakeValid(rs: seq<Record>, k: nat)
    requires ValidRecords(rs) && k < |rs|
    ensures ValidRecords(rs[..k]) && ValidRecord(rs[k]) && rs[..k] + [rs[k]] + rs[k + 1..] == rs
  {
    hide ValidRecord;
    assert rs[k] in rs && forall r | r in rs[..k] :: r in rs;
  }

  lemma SizeAtFirst(m: Message, rs: seq<Record>, rest: ByteString)
    requires Valid(m) && ValidRecords(rs) && |m.additional| >= |rs| && FirstOpt(rs) < |rs|
    ensures EdnsUdpSize(EncodeHeader(m) + (EncodeMiddle(m) + (EncodeRecords(rs) + rest)))
          == Some(rs[FirstOpt(rs)].class_)
  {
    hide *;
    var k := FirstOpt(rs);
    TakeValid(rs, k);
    SizeAt(m, rs[..k], rs[k], rs[k + 1..], rest);
  }

  lemma SizeAt(m: Message, front: seq<Record>, o: Record, back: seq<Record>, rest: ByteString)
    requires Valid(m) && ValidRecords(front) && NoOpt(front) && ValidRecord(o) && o.rtype == 41
          && |m.additional| > |front|
    ensures EdnsUdpSize(EncodeHeader(m) + (EncodeMiddle(m) + (EncodeRecords(front + [o] + back) + rest)))
          == Some(o.class_)
  {
    hide *;
    EncodeAround(front, o, back);
    SizeOfEncoding(m, front, o, EncodeRecords(back) + rest);
    Regrouped(EncodeRecords(front), EncodeRecord(o), EncodeRecords(back), rest);
  }

  lemma Regrouped<T>(a: seq<T>, b: seq<T>, c: seq<T>, d: seq<T>)
    ensures a + (b + c) + d == a + (b + (c + d))
  {
  }

  lemma {:induction false} FirstOptKept(front: seq<Record>, o: Record, o': Record, back: seq<Record>)
    requires o.rtype == 41 && o'.rtype == 41 && o.class_ == o'.class_
    ensures var a, b := front + [o] + back, front + [o'];
            FirstOpt(a) < |a| && FirstOpt(b) < |b| && a[FirstOpt(a)].class_ == b[FirstOpt(b)].class_
    decreases front
  {
    var a, b := front + [o] + back, front + [o'];
    if front != [] && front[0].rtype != 41 {
      assert a[1..] == front[1..] + [o] + back && b[1..] == front[1..] + [o'];
      FirstOptKept(front[1..], o, o', back);
    } else {
      assert a[0].rtype == 41 && b[0].rtype == 41;
    }
  }

  /** Extending an OPT record never changes the size that the other walker reads, lost records or not. */
  lemma ExtensionKeepsSize(m: Message, front: seq<Record>, o: Record, back: seq<Record>, option: ByteString)
    requires Valid(m) && m.additional == front + [o] + back && o.rtype == 41 && NoOpt(back)
    requires |o.rdata| + |option| < U16_LIMIT
    ensures SlicesInside(Encode(m)) && InjectEcs(Encode(m), option).Ok?
    ensures EdnsUdpSize(InjectEcs(Encode(m), option).value) == EdnsUdpSize(Encode(m))
  {
    var o' := o.(rdata := o.rdata + option);
    InjectionExtendsOpt(m, front, o, back, option);
    SplitEncode(m);
    FirstOptKept(front, o, o', back);
    assert o in m.additional && forall r | r in front :: r in m.additional;
    assert ValidRecords(front + [o']);
    assert EncodeRecords(m.additional) + [] == EncodeRecords(m.additional);
    SizeAtFirst(m, m.additional, []);
    assert EncodeRecords(front + [o']) + [] == EncodeRecords(front + [o']);
    SizeAtFirst(m, front + [o'], []);
  }

  // ---------------------------------------------------------------- the address in the option

  /** Section 6 of RFC 7871: just enough octets for the prefix, with the bits behind it zero. */
  predicate RfcAddress(prefixLen: nat, a: ByteString)
  {
    && |a| == (prefixLen + 7) / 8
    && (prefixLen % 8 != 0 ==> a[|a| - 1] % IpRanges.Pow2(8 - prefixLen % 8) == 0)
  }

  /**
    The option carries an address in the form of RFC 7871 exactly when the prefix is not empty
    and the configured subnet has no bits set behind it.
    */
  lemma EcsAddressConformsIff(prefixLen: nat, addr: ByteString)
    requires |addr| in {4, 16} && prefixLen <= 8 * |addr|
    ensures RfcAddress(prefixLen, addr[..EcsAddressLen(prefixLen, |addr|)]) <==>
            prefixLen > 0 && (prefixLen % 8 != 0 ==> addr[prefixLen / 8] % IpRanges.Pow2(8 - prefixLen % 8) == 0)
  {
  }

  /** Two configured subnets whose option does not conform: `10.0.0.0/0` and `192.168.31.0/20`. */
  lemma EcsAddressExamples()
    ensures !RfcAddress(0, [10, 0, 0, 0][..EcsAddressLen(0, 4)])
    ensures !RfcAddress(20, [192, 168, 31, 0][..EcsAddressLen(20, 4)])
  {
    assert IpRanges.Pow2(4) == 16;
    EcsAddressConformsIff(0, [10, 0, 0, 0]);
    EcsAddressConformsIff(20, [192, 168, 31, 0]);
  }

  /** Either there is no OPT record, or there is a last one. */
  lemma {:induction false} LastOpt(rs: seq<Record>) returns (found: bool, front: seq<Record>, o: Record,
                                                             back: seq<Record>)
    ensures NoOpt(back)
    ensures if found then rs == front + [o] + back && o.rtype == 41 else rs == back
  {
    if rs == [] {
      found, front, o, back := false, [], Record([], 0, 0, 0, []), [];
    } else {
      found, front, o, back := LastOpt(rs[1..]);
      if found {
        front := [rs[0]] + front;
      } else if rs[0].rtype == 41 {
        found, front, o := true, [], rs[0];
      } else {
        back := rs;
      }
    }
  }

  lemma EndsWithOption(m: Message, option: ByteString)
    requires Valid(m)
    ensures SlicesInside(Encode(m)) && InjectEcs(Encode(m), option).Ok?
    ensures EndsWith(InjectEcs(Encode(m), option).value, option)
  {
    hide *;
    var found, front, o, back := LastOpt(m.additional);
    if found {
      var o' := o.(rdata := o.rdata + option);
      InjectionExtendsOpt(m, front, o, back, option);
      EncodeRecordsSnoc(front, o');
      RecordEndsWith(o', o.rdata, option);
      var before := CutBefore(m, front, EncodeRecord(o'));
      EndsDeeper(before, EncodeRecord(o'), option);
    } else {
      var rr := Record([0], 41, 1232, 0, option);
      var m' := m.(additional := m.additional + [rr]);
      InjectionAppendsOpt(m, option);
      EncodeRecordsSnoc(m.additional, rr);
      RecordEndsWith(rr, [], option);
      SplitEncode(m');
      var before := CutBefore(m', m.additional, EncodeRecord(rr));
      EndsDeeper(before, EncodeRecord(rr), option);
    }
  }

  lemma RecordEndsWith(r: Record, kept: ByteString, option: ByteString)
    requires r.rdata == kept + option
    ensures EndsWith(EncodeRecord(r), option)
  {
    hide RecordHead;
  }

  lemma EndsDeeper(a: ByteString, b: ByteString, option: ByteString)
    requires EndsWith(b, option)
    ensures EndsWith(a + b, option)
  {
  }

  /** Whatever the message, it comes out with the subnet at the end of its last OPT record, where it now ends. */
  lemma ResultCarriesSubnet(m: Message, family: nat, prefixLen: byte, addr: ByteString)
    requires Valid(m) && family < 0x1_0000 && |addr| <= 0xfffb
    ensures SlicesInside(Encode(m)) && InjectEcs(Encode(m), EcsOption(family, prefixLen, addr)).Ok?
    ensures var out := InjectEcs(Encode(m), EcsOption(family, prefixLen, addr)).value;
            |out| >= 8 + |addr| && CarriesSubnet(out[|out| - 8 - |addr|..], family, prefixLen, addr)
  {
    var option := EcsOption(family, prefixLen, addr);
    assert |option| == 8 + |addr|;
    hide EcsOption, Encode, InjectEcs, CarriesSubnet, SlicesInside, Valid;
    EndsWithOption(m, option);
  }

  // ---------------------------------------------------------------- a message and its bytes

  /** A query for the A record of `a`. */
  const EXAMPLE_QUERY: ByteString := [0x12, 0x34, 1, 0, 0, 1, 0, 0, 0, 0, 0, 0, 1, 97, 0, 0, 1, 0, 1]

  /** The same query with an OPT record that carries the subnet 192.0.2.0/24. */
  const EXAMPLE_RESULT: ByteString :=
    [0x12, 0x34, 1, 0, 0, 1, 0, 0, 0, 0, 0, 1] + [1, 97, 0, 0, 1, 0, 1]
    + [0, 0, 41, 4, 0xd0, 0, 0, 0, 0, 0, 11, 0, 8, 0, 7, 0, 1, 24, 0, 192, 0, 2]

  lemma InjectionExample()
    ensures SlicesInside(EXAMPLE_QUERY)
    ensures InjectEcs(EXAMPLE_QUERY, EcsOption(1, 24, [192, 0, 2])) == Ok(EXAMPLE_RESULT)
  {
    var option: ByteString := [0, 8, 0, 7, 0, 1, 24, 0, 192, 0, 2];
    var q := Message(0x1234, 0x0100, [Question([1, 97, 0], 1, 1)], [], [], []);
    ExampleIsValid(q);
    ExampleOption();
    ExampleBytes(q);
    ExampleAnswer(q);
    InjectionAppendsOpt(q, EcsOption(1, 24, [192, 0, 2]));
    hide *;
  }

  lemma ExampleIsValid(q: Message)
    requires q == Message(0x1234, 0x0100, [Question([1, 97, 0], 1, 1)], [], [], [])
    ensures Valid(q) && NoOpt(q.additional)
  {
    var name: ByteString := [1, 97, 0];
    assert name[2..] == [0] && ValidName([0]);
  }

  lemma ExampleOption()
    ensures EcsOption(1, 24, [192, 0, 2]) == [0, 8, 0, 7, 0, 1, 24, 0, 192, 0, 2]
  {
    assert Word(8) == [0, 8] && Word(7) == [0, 7] && Word(1) == [0, 1];
    hide Word, CarriesSubnet;
  }

  lemma ExampleBytes(q: Message)
    requires q == Message(0x1234, 0x0100, [Question([1, 97, 0], 1, 1)], [], [], [])
    ensures Encode(q) == EXAMPLE_QUERY
  {
    ExampleMiddle(q);
    assert Word(0x1234) == [0x12, 0x34] && Word(0x0100) == [1, 0] && Word(0) == [0, 0] && Word(1) == [0, 1];
    hide Word, EncodeMiddle;
  }

  lemma ExampleMiddle(q: Message)
    requires q.questions == [Question([1, 97, 0], 1, 1)] && q.answers == q.authority == []
    ensures EncodeMiddle(q) == [1, 97, 0, 0, 1, 0, 1]
  {
    assert Word(1) == [0, 1];
    hide Word;
    assert q.answers + q.authority == [];
    assert EncodeQuestions(q.questions) == EncodeQuestion(q.questions[0]) + [];
  }

  lemma ExampleAnswer(q: Message)
    requires q == Message(0x1234, 0x0100, [Question([1, 97, 0], 1, 1)], [], [], [])
    ensures Encode(q.(additional := q.additional + [Record([0], 41, 1232, 0, EcsOption(1, 24, [192, 0, 2]))]))
         == EXAMPLE_RESULT
  {
    var rr := Record([0], 41, 1232, 0, EcsOption(1, 24, [192, 0, 2]));
    var m := q.(additional := q.additional + [rr]);
    assert m.additional == [rr];
    ExampleMiddle(m);
    ExampleRecord(rr);
    ExampleHeader(m);
    hide EncodeMiddle, EncodeRecord, EncodeHeader, EcsOption;
    OneRecord(rr);
    hide EncodeRecords;
  }

  lemma OneRecord(r: Record)
    ensures EncodeRecords([r]) == EncodeRecord(r)
  {
    hide EncodeRecord;
    assert EncodeRecords([r]) == EncodeRecord(r) + [];
  }

  lemma ExampleHeader(m: Message)
    requires m.id == 0x1234 && m.flags == 0x0100 && |m.questions| == 1 && m.answers == m.authority == []
    requires |m.additional| == 1
    ensures EncodeHeader(m) == [0x12, 0x34, 1, 0, 0, 1, 0, 0, 0, 0, 0, 1]
  {
    assert Word(0x1234) == [0x12, 0x34] && Word(0x0100) == [1, 0] && Word(0) == [0, 0] && Word(1) == [0, 1];
    hide Word;
  }

  lemma ExampleRecord(rr: Record)
    requires rr == Record([0], 41, 1232, 0, EcsOption(1, 24, [192, 0, 2]))
    ensures EncodeRecord(rr)
         == [0, 0, 41, 4, 0xd0, 0, 0, 0, 0, 0, 11, 0, 8, 0, 7, 0, 1, 24, 0, 192, 0, 2]
  {
    ExampleOption();
    ExampleRecordHead();
    hide RecordHead, EcsOption;
  }

  lemma ExampleRecordHead()
    ensures RecordHead(41, 1232, 0, 11) == [0, 41, 4, 0xd0, 0, 0, 0, 0, 0, 11]
  {
    assert Word(41) == [0, 41] && Word(1232) == [4, 0xd0] && Word(11) == [0, 11];
    ZeroTtl();
    hide Word, BE;
  }

  lemma ZeroTtl()
    ensures BE(0, 4) == [0, 0, 0, 0]
  {
    TwoBytes(0);
    FourBytes(0);
    hide BE;
  }
}
