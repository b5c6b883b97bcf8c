/** Splitting a transfer's answers into length-prefixed TCP messages (wire/mod.rs): nothing lost or
    reordered, no message over 65535 bytes, and no split with fewer messages. */
module Framing {
  newtype byte = x: int | 0 <= x < 256

  type Bytes = seq<byte>

  const DNS_TCP_MAX_SIZE := 65535

  /** The shortest answer: a root owner, type, class, TTL and an empty rdata. */
  const MIN_ANSWER := 11

  /** A wire name is at most 255 bytes. */
  const MAX_NAME := 255

  datatype Query = Query(id: nat, qname: Bytes, qtype: nat)

  predicate QueryOk(q: Query) { |q.qname| <= MAX_NAME && q.id < 0x1_0000 && q.qtype < 0x1_0000 }

  /** `to_be_bytes` of a value cast to u16. */
  function U16(x: nat): (b: Bytes)
    ensures |b| == 2
  { [(x / 256 % 256) as byte, (x % 256) as byte] }

  function FromU16(hi: byte, lo: byte): nat { hi as int * 256 + lo as int }

  /** A value below 65536 survives the cast. */
  lemma U16RoundTrip(x: nat)
    requires x < 0x1_0000
    ensures FromU16(U16(x)[0], U16(x)[1]) == x
  {
    assert x / 256 < 256;
  }

  function Concat<T>(parts: seq<seq<T>>): seq<T> {
    if parts == [] then [] else Concat(parts[..|parts| - 1]) + parts[|parts| - 1]
  }

  lemma ConcatOne<T>(parts: seq<seq<T>>, last: seq<T>)
    ensures Concat(parts + [last]) == Concat(parts) + last
  {
    assert (parts + [last])[..|parts|] == parts;
  }

  lemma {:induction false} ConcatAppend<T>(a: seq<seq<T>>, b: seq<seq<T>>)
    ensures Concat(a + b) == Concat(a) + Concat(b)
    decreases |b|
  {
    if b == [] {
      assert a + b == a;
    } else {
      var n := |b| - 1;
      ConcatAppend(a, b[..n]);
      assert Concat(a + b) == Concat(a + b[..n]) + b[n] by { assert (a + b)[..|a + b| - 1] == a + b[..n]; }
      assert Concat(a) + Concat(b[..n]) + b[n] == Concat(a) + (Concat(b[..n]) + b[n]);
    }
  }

  function MessageHead(q: Query, count: nat): Bytes {
    U16(q.id) + [0x84, 0x00] + U16(1) + U16(count) + U16(0) + U16(0) + q.qname + U16(q.qtype) + U16(1)
  }

  /** `build_message_into`. */
  function Message(q: Query, answers: seq<Bytes>): Bytes { MessageHead(q, |answers|) + Concat(answers) }

  /** `message_len`. */
  function MessageLen(q: Query, answersLen: nat): nat { 12 + |q.qname| + 4 + answersLen }

  /** A length-prefixed message. */
  function Frame(message: Bytes): Bytes { U16(|message|) + message }

  predicate Fits(q: Query, answers: seq<Bytes>) { MessageLen(q, |Concat(answers)|) <= DNS_TCP_MAX_SIZE }

  /** The tracked length is the length of what is built. */
  lemma LengthExact(q: Query, answers: seq<Bytes>)
    ensures |Message(q, answers)| == MessageLen(q, |Concat(answers)|)
  {
  }

  // ---- Splits ----------------------------------------------------------------------------------------

  /** Groups that each fit in one message, none empty. */
  ghost predicate Splits(q: Query, groups: seq<seq<Bytes>>, answers: seq<Bytes>) {
    && Concat(groups) == answers
    && forall g | g in groups :: g != [] && Fits(q, g)
  }

  ghost predicate Full(q: Query, groups: seq<seq<Bytes>>, k: nat)
    requires k + 1 < |groups|
  { groups[k + 1] != [] && !Fits(q, groups[k] + [groups[k + 1][0]]) }

  /** Every group but the last could not have taken the next answer as well. */
  ghost predicate Greedy(q: Query, groups: seq<seq<Bytes>>) { forall k | 0 <= k < |groups| - 1 :: Full(q, groups, k) }

  lemma {:induction false} ConcatPrefix<T>(parts: seq<seq<T>>, n: nat)
    requires n <= |parts|
    ensures |Concat(parts[..n])| <= |Concat(parts)|
    ensures Concat(parts[..n]) == Concat(parts)[..|Concat(parts[..n])|]
  {
    assert parts == parts[..n] + parts[n..];
    ConcatAppend(parts[..n], parts[n..]);
  }

  lemma {:induction false} SizeSub(answers: seq<Bytes>, lo: nat, hi: nat, lo': nat, hi': nat)
    requires lo <= lo' <= hi' <= hi <= |answers|
    ensures |Concat(answers[lo'..hi'])| <= |Concat(answers[lo..hi])|
  {
    assert answers[lo..hi] == answers[lo..lo'] + answers[lo'..hi'] + answers[hi'..hi];
    ConcatAppend(answers[lo..lo'] + answers[lo'..hi'], answers[hi'..hi]);
    ConcatAppend(answers[lo..lo'], answers[lo'..hi']);
  }

  /** How many answers the first k groups hold. */
  ghost function Taken(groups: seq<seq<Bytes>>, k: nat): nat
    requires k <= |groups|
  { |Concat(groups[..k])| }

  lemma GroupIsSlice(q: Query, groups: seq<seq<Bytes>>, answers: seq<Bytes>, k: nat)
    requires Splits(q, groups, answers) && k < |groups|
    ensures Taken(groups, k) < Taken(groups, k + 1) <= |answers|
    ensures groups[k] == answers[Taken(groups, k)..Taken(groups, k + 1)]
  {
    assert groups[..k + 1] == groups[..k] + [groups[k]];
    ConcatOne(groups[..k], groups[k]);
    ConcatPrefix(groups, k + 1);
    assert groups[k] in groups;
    var t := Concat(groups[..k + 1]);
    assert t == answers[..|t|];
    assert groups[k] == t[Taken(groups, k)..];
  }

  lemma AllTaken(q: Query, groups: seq<seq<Bytes>>, answers: seq<Bytes>)
    requires Splits(q, groups, answers)
    ensures Taken(groups, |groups|) == |answers|
  {
    assert groups[..|groups|] == groups;
  }

  /** A slice that overflows is not inside one that fits. */
  lemma OverflowSticksOut(q: Query, answers: seq<Bytes>, lo: nat, hi: nat, lo': nat, hi': nat)
    requires lo' <= lo <= hi <= |answers| && lo' <= hi' <= |answers|
    requires !Fits(q, answers[lo..hi]) && Fits(q, answers[lo'..hi'])
    ensures hi' < hi
  {
    if hi <= hi' { SizeSub(answers, lo', hi', lo, hi); }
  }

  /** A greedy group with the answer after it is a slice that overflows. */
  lemma GreedySlice(q: Query, greedy: seq<seq<Bytes>>, answers: seq<Bytes>, k: nat)
    requires Splits(q, greedy, answers) && Greedy(q, greedy) && k + 1 < |greedy|
    ensures Taken(greedy, k) <= Taken(greedy, k + 1) + 1 <= |answers|
    ensures !Fits(q, answers[Taken(greedy, k)..Taken(greedy, k + 1) + 1])
  {
    GroupIsSlice(q, greedy, answers, k);
    GroupIsSlice(q, greedy, answers, k + 1);
    assert Full(q, greedy, k);
    assert greedy[k] + [greedy[k + 1][0]] == answers[Taken(greedy, k)..Taken(greedy, k + 1) + 1];
  }

  /** A greedy group reaches past the group of any other split that starts no later. */
  lemma GreedyReaches(q: Query, greedy: seq<seq<Bytes>>, other: seq<seq<Bytes>>, answers: seq<Bytes>, k: nat)
    requires Splits(q, greedy, answers) && Greedy(q, greedy) && Splits(q, other, answers)
    requires k < |greedy| - 1 && k < |other| && Taken(other, k) <= Taken(greedy, k)
    ensures Taken(other, k + 1) <= Taken(greedy, k + 1)
  {
    GreedySlice(q, greedy, answers, k);
    GroupIsSlice(q, other, answers, k);
    assert other[k] in other;
    OverflowSticksOut(q, answers, Taken(greedy, k), Taken(greedy, k + 1) + 1, Taken(other, k), Taken(other, k + 1));
  }

  lemma {:induction false} GreedyAhead(q: Query, greedy: seq<seq<Bytes>>, other: seq<seq<Bytes>>,
                                       answers: seq<Bytes>, k: nat)
    requires Splits(q, greedy, answers) && Greedy(q, greedy) && Splits(q, other, answers)
    requires k < |greedy| && k <= |other|
    ensures Taken(other, k) <= Taken(greedy, k)
  {
    if k > 0 {
      GreedyAhead(q, greedy, other, answers, k - 1);
      GreedyReaches(q, greedy, other, answers, k - 1);
    } else {
      assert other[..0] == [];
    }
  }

  /** No split of the answers uses fewer messages than a greedy one. */
  lemma GreedyOptimal(q: Query, greedy: seq<seq<Bytes>>, other: seq<seq<Bytes>>, answers: seq<Bytes>)
    requires Splits(q, greedy, answers) && Greedy(q, greedy) && Splits(q, other, answers)
    ensures |greedy| <= |other|
  {
    if |other| < |greedy| {
      GreedyAhead(q, greedy, other, answers, |other|);
      AllTaken(q, other, answers);
      GroupIsSlice(q, greedy, answers, |other|);
    }
  }

  // ---- Reading the stream back --------------------------------------------------------------------------

  datatype Read = Closed | Incomplete | Got(message: Bytes, rest: Bytes)

  /** `read_tcp_message` on the bytes still to come. */
  function ReadMessage(input: Bytes): Read {
    if input == [] then Closed
    else if |input| < 2 then Incomplete
    else
      var len := FromU16(input[0], input[1]);
      if |input| < 2 + len then Incomplete else Got(input[2..2 + len], input[2 + len..])
  }

  /** Every message until the connection closes, and whether it closes between messages. */
  function ReadAll(input: Bytes): (r: (seq<Bytes>, bool))
    decreases |input|
  {
    match ReadMessage(input)
    case Closed => ([], true)
    case Incomplete => ([], false)
    case Got(m, rest) => var r := ReadAll(rest); ([m] + r.0, r.1)
  }

  lemma ReadOne(message: Bytes, rest: Bytes)
    requires |message| <= DNS_TCP_MAX_SIZE
    ensures ReadMessage(Frame(message) + rest) == Got(message, rest)
  {
    U16RoundTrip(|message|);
    var input := Frame(message) + rest;
    assert input[0] == U16(|message|)[0] && input[1] == U16(|message|)[1];
    assert input[2..2 + |message|] == message && input[2 + |message|..] == rest;
  }

  function Frames(messages: seq<Bytes>): (out: seq<Bytes>)
    ensures |out| == |messages| && forall i | 0 <= i < |messages| :: out[i] == Frame(messages[i])
  { seq(|messages|, i requires 0 <= i < |messages| => Frame(messages[i])) }

  lemma ConcatFirst<T>(parts: seq<seq<T>>)
    requires parts != []
    ensures Concat(parts) == parts[0] + Concat(parts[1..])
  {
    assert parts == [parts[0]] + parts[1..];
    ConcatAppend([parts[0]], parts[1..]);
    assert [parts[0]][..0] == [];
    assert Concat([parts[0]]) == parts[0];
  }

  /** The input is exactly these messages. */
  ghost predicate ReadsAs(input: Bytes, messages: seq<Bytes>) { Delivers(input, messages) == true }

  ghost predicate Delivers(input: Bytes, messages: seq<Bytes>) { ReadAll(input) == (messages, true) }

  lemma ReadNext(message: Bytes, rest: Bytes, later: seq<Bytes>)
    requires |message| <= DNS_TCP_MAX_SIZE && ReadsAs(rest, later)
    ensures ReadsAs(Frame(message) + rest, [message] + later)
  {
    ReadOne(message, rest);
  }

  lemma FirstFrame(messages: seq<Bytes>)
    requires messages != []
    ensures Concat(Frames(messages)) == Frame(messages[0]) + Concat(Frames(messages[1..]))
  {
    ConcatFirst(Frames(messages));
    assert Frames(messages)[1..] == Frames(messages[1..]);
  }

  lemma ReadNone()
    ensures ReadsAs(Concat(Frames([])), [])
  {
    assert Frames([]) == [];
    assert Delivers([], []);
  }

  lemma ReadFirst(messages: seq<Bytes>)
    requires messages != [] && |messages[0]| <= DNS_TCP_MAX_SIZE
    requires ReadsAs(Concat(Frames(messages[1..])), messages[1..])
    ensures ReadsAs(Concat(Frames(messages)), messages)
  {
    FirstFrame(messages);
    ReadNext(messages[0], Concat(Frames(messages[1..])), messages[1..]);
    assert [messages[0]] + messages[1..] == messages;
  }

  /** A reader of the byte stream recovers exactly the messages written, in order. */
  lemma {:induction false} FramesReadBack(messages: seq<Bytes>)
    requires forall m | m in messages :: |m| <= DNS_TCP_MAX_SIZE
    ensures ReadsAs(Concat(Frames(messages)), messages)
  {
    if messages == [] {
      ReadNone();
    } else {
      assert messages[0] in messages;
      FramesReadBack(messages[1..]);
      ReadFirst(messages);
    }
  }

  lemma {:induction false} CountBound(answers: seq<Bytes>)
    requires forall a | a in answers :: MIN_ANSWER <= |a|
    ensures MIN_ANSWER * |answers| <= |Concat(answers)|
  {
    if answers != [] {
      assert answers[|answers| - 1] in answers;
      CountBound(answers[..|answers| - 1]);
    }
  }

  /** The 16-bit answer count of a message that fits is the number of its answers. */
  lemma CountExact(q: Query, answers: seq<Bytes>)
    requires Fits(q, answers) && forall a | a in answers :: MIN_ANSWER <= |a|
    ensures FromU16(Message(q, answers)[6], Message(q, answers)[7]) == |answers|
  {
    CountBound(answers);
    U16RoundTrip(|answers|);
    assert Message(q, answers)[6] == U16(|answers|)[0] && Message(q, answers)[7] == U16(|answers|)[1];
  }

  // ---- The writer and the builder -------------------------------------------------------------------------

  /** A connection that takes `limit` writes before it fails. */
  class Writer {
    var sent: seq<Bytes>
    const limit: nat

    predicate Valid()
      reads this
    { |sent| <= limit }

    constructor (limit: nat)
      ensures Valid() && sent == [] && this.limit == limit
    {
      sent := [];
      this.limit := limit;
    }

    method WriteAll(frame: Bytes) returns (ok: bool)
      requires Valid()
      modifies this
      ensures Valid()
      ensures ok <==> |old(sent)| < limit
      ensures sent == if ok then old(sent) + [frame] else old(sent)
    {
      ok := |sent| < limit;
      if ok { sent := sent + [frame]; }
    }
  }

  datatype XfrResult = Done | ComposeFailed | TooLarge | IoFailed

  /** What composing a record gives; a type the server does not speak is skipped. */
  datatype Composed = Invalid | Skipped | Answer(bytes: Bytes)

  class DnsMessageBuilder {
    const q: Query
    var answers: seq<Bytes>
    var answersLen: nat

    ghost predicate Valid()
      reads this
    { QueryOk(q) && answersLen == |Concat(answers)| }

    constructor (query: Query)
      requires QueryOk(query)
      ensures Valid() && q == query && answers == []
    {
      q := query;
      answers, answersLen := [], 0;
    }

    method PushAnswer(answer: Bytes)
      requires Valid()
      modifies this
      ensures Valid() && answers == old(answers) + [answer]
    {
      ConcatOne(answers, answer);
      answersLen := answersLen + |answer|;
      answers := answers + [answer];
    }

    method PopLastAnswer() returns (answer: Bytes)
      requires Valid() && answers != []
      modifies this
      ensures Valid() && old(answers) == answers + [answer]
    {
      answer := answers[|answers| - 1];
      answersLen := answersLen - |answer|;
      answers := answers[..|answers| - 1];
    }

    method ClearAnswers()
      requires Valid()
      modifies this
      ensures Valid() && answers == []
    {
      answers, answersLen := [], 0;
    }

    /** `build_message_into`: the header, the question, then each answer. */
    method BuildInto(start: Bytes) returns (out: Bytes)
      requires Valid()
      ensures out == start + Message(q, answers)
    {
      out := start + U16(q.id) + [0x84, 0x00] + U16(1) + U16(|answers|) + U16(0) + U16(0);
      out := out + q.qname + U16(q.qtype) + U16(1);
      ghost var head := start + MessageHead(q, |answers|);
      assert out == head;
      for i := 0 to |answers|
        invariant out == head + Concat(answers[..i])
      {
        assert answers[..i + 1] == answers[..i] + [answers[i]];
        ConcatOne(answers[..i], answers[i]);
        out := out + answers[i];
      }
      assert answers[..|answers|] == answers;
    }

    /** `build_tcp_frame`: `None` over the limit. */
    method BuildTcpFrame() returns (ok: bool, frame: Bytes)
      requires Valid()
      ensures ok <==> Fits(q, answers)
      ensures ok ==> frame == Frame(Message(q, answers))
    {
      var len := MessageLen(q, answersLen);
      if len > DNS_TCP_MAX_SIZE { return false, []; }
      LengthExact(q, answers);
      frame := BuildInto(U16(len));
      ok := true;
    }
  }

  function Messages(q: Query, groups: seq<seq<Bytes>>): (out: seq<Bytes>)
    ensures |out| == |groups| && forall i | 0 <= i < |groups| :: out[i] == Message(q, groups[i])
  { seq(|groups|, i requires 0 <= i < |groups| => Message(q, groups[i])) }

  function Pending(answers: seq<Bytes>): seq<seq<Bytes>> { if answers == [] then [] else [answers] }

  /** The answers so far: the groups written, then the ones still in the builder, which is empty
      only at the start. */
  ghost predicate Streaming(q: Query, groups: seq<seq<Bytes>>, pending: seq<Bytes>, done: seq<Bytes>) {
    Underway(q, groups, pending, done) == true
  }

  ghost predicate Underway(q: Query, groups: seq<seq<Bytes>>, pending: seq<Bytes>, done: seq<Bytes>) {
    && (pending == [] ==> groups == [])
    && Splits(q, groups + Pending(pending), done) && Greedy(q, groups + Pending(pending))
  }

  /** The bytes on the connection are the frames of the groups. */
  ghost predicate Wrote(q: Query, was: seq<Bytes>, groups: seq<seq<Bytes>>, sent: seq<Bytes>) {
    Follows(q, was, groups, sent) == true
  }

  ghost predicate Follows(q: Query, was: seq<Bytes>, groups: seq<seq<Bytes>>, sent: seq<Bytes>) {
    sent == was + Frames(Messages(q, groups))
  }

  lemma WroteStart(q: Query, was: seq<Bytes>)
    ensures Wrote(q, was, [], was) && Streaming(q, [], [], [])
  {
    assert Frames(Messages(q, [])) == [];
    assert was + [] == was;
    assert [] + Pending([]) == [];
  }

  lemma WroteNext(q: Query, was: seq<Bytes>, groups: seq<seq<Bytes>>, sent: seq<Bytes>, group: seq<Bytes>)
    requires Wrote(q, was, groups, sent)
    ensures Wrote(q, was, groups + [group], sent + [Frame(Message(q, group))])
    ensures |sent| == |was| + |groups|
  {
    assert Frames(Messages(q, groups + [group])) == Frames(Messages(q, groups)) + [Frame(Message(q, group))];
  }

  lemma SplitsSnoc(q: Query, groups: seq<seq<Bytes>>, last: seq<Bytes>, done: seq<Bytes>)
    ensures Splits(q, groups + [last], done) <==>
            && Concat(groups) + last == done && last != [] && Fits(q, last)
            && forall g | g in groups :: g != [] && Fits(q, g)
  {
    ConcatOne(groups, last);
    if Splits(q, groups + [last], done) {
      assert last in groups + [last];
      forall g | g in groups ensures g != [] && Fits(q, g) { assert g in groups + [last]; }
    }
  }

  lemma GreedySnoc(q: Query, groups: seq<seq<Bytes>>, last: seq<Bytes>, next: seq<Bytes>)
    requires Greedy(q, groups + [last]) && last != [] && next != [] && next[0] == last[0]
    ensures Greedy(q, groups + [next])
  {
    var before, after := groups + [last], groups + [next];
    forall k | 0 <= k < |after| - 1 ensures Full(q, after, k) { assert Full(q, before, k); }
  }

  /** The answer joins the pending ones when they still fit together. */
  lemma StreamGrows(q: Query, groups: seq<seq<Bytes>>, pending: seq<Bytes>, done: seq<Bytes>, answer: Bytes)
    requires Streaming(q, groups, pending, done) && Fits(q, pending + [answer])
    ensures Streaming(q, groups, pending + [answer], done + [answer])
  {
    SplitsSnoc(q, groups, pending, done);
    SplitsSnoc(q, groups, pending + [answer], done + [answer]);
    if pending == [] {
      assert groups + Pending([answer]) == [[answer]];
    } else {
      GreedySnoc(q, groups, pending, pending + [answer]);
    }
  }

  /** The answer opens the next group when the pending ones cannot take it. */
  lemma StreamFlushes(q: Query, groups: seq<seq<Bytes>>, pending: seq<Bytes>, done: seq<Bytes>, answer: Bytes)
    requires Streaming(q, groups, pending, done) && pending != [] && !Fits(q, pending + [answer]) && Fits(q, [answer])
    ensures Streaming(q, groups + [pending], [answer], done + [answer])
  {
    SplitsSnoc(q, groups, pending, done);
    SplitsSnoc(q, groups + [pending], [answer], done + [answer]);
    ConcatOne(groups, pending);
    var before, after := groups + [pending], groups + [pending] + [[answer]];
    forall k | 0 <= k < |after| - 1 ensures Full(q, after, k) {
      if k < |before| - 1 { assert Full(q, before, k); }
    }
  }

  // ---- The splitter -------------------------------------------------------------------------------------------

  /** `flush_message_if_not_empty`. */
  method FlushIfNotEmpty(w: Writer, b: DnsMessageBuilder) returns (r: XfrResult, count: nat)
    requires w.Valid() && b.Valid()
    modifies w, b
    ensures w.Valid() && b.Valid() && count == |w.sent| - |old(w.sent)|
    ensures r == if old(b.answers) == [] then Done
                 else if !Fits(b.q, old(b.answers)) then TooLarge
                 else if |old(w.sent)| < w.limit then Done else IoFailed
    ensures b.answers == if r == Done then [] else old(b.answers)
    ensures w.sent == if r == Done && old(b.answers) != [] then old(w.sent) + [Frame(Message(b.q, old(b.answers)))]
                      else old(w.sent)
  {
    if b.answers == [] { return Done, 0; }
    var fits, frame := b.BuildTcpFrame();
    if !fits { return TooLarge, 0; }
    var written := w.WriteAll(frame);
    if !written { return IoFailed, 0; }
    b.ClearAnswers();
    return Done, 1;
  }

  /** What adding one answer to the pending ones comes to. */
  function AddResult(q: Query, pending: seq<Bytes>, item: Composed, room: bool): XfrResult {
    match item
    case Invalid => ComposeFailed
    case Skipped => Done
    case Answer(a) =>
      if Fits(q, pending + [a]) then Done
      else if pending == [] then TooLarge
      else if !room then IoFailed
      else if Fits(q, [a]) then Done else TooLarge
  }

  function Bodies(item: Composed): seq<Bytes> { if item.Answer? then [item.bytes] else [] }

  /** What holds of the groups written when a transfer is cut short. */
  ghost predicate CutShort(q: Query, groups: seq<seq<Bytes>>, done: seq<Bytes>) {
    Concat(groups) <= done && forall g | g in groups :: Fits(q, g)
  }

  /** The overflow path: write the pending answers, then start again with the last one. */
  method FlushAndPush(w: Writer, b: DnsMessageBuilder, last: Bytes, ghost was: seq<Bytes>,
                      ghost groups: seq<seq<Bytes>>, ghost done: seq<Bytes>)
    returns (r: XfrResult, count: nat, ghost grown: seq<seq<Bytes>>)
    requires w.Valid() && b.Valid() && Streaming(b.q, groups, b.answers, done) && Wrote(b.q, was, groups, w.sent)
    requires b.answers != [] && !Fits(b.q, b.answers + [last])
    modifies w, b
    ensures w.Valid() && b.Valid() && count == |w.sent| - |old(w.sent)| && Wrote(b.q, was, grown, w.sent)
    ensures r == if |old(w.sent)| >= w.limit then IoFailed else if Fits(b.q, [last]) then Done else TooLarge
    ensures r == Done ==> Streaming(b.q, grown, b.answers, done + [last])
    ensures CutShort(b.q, grown, done) && (r == IoFailed ==> grown == groups)
  {
    ghost var pending := b.answers;
    GroupsFit(b.q, groups, pending, done);
    grown := groups;
    r, count := FlushIfNotEmpty(w, b);
    if r != Done { return; }
    WroteNext(b.q, was, groups, old(w.sent), pending);
    ConcatOne(groups, pending);
    grown := groups + [pending];
    b.PushAnswer(last);
    assert b.answers == [last];
    if MessageLen(b.q, b.answersLen) > DNS_TCP_MAX_SIZE { return TooLarge, count, grown; }
    StreamFlushes(b.q, groups, pending, done, last);
  }

  /** `add_answer_and_flush_if_needed`: the frames sent are counted whether or not the answer
      then turns out too large. */
  method AddAnswerAndFlush(w: Writer, b: DnsMessageBuilder, item: Composed, ghost was: seq<Bytes>,
                           ghost groups: seq<seq<Bytes>>, ghost done: seq<Bytes>)
    returns (r: XfrResult, count: nat, ghost grown: seq<seq<Bytes>>)
    requires w.Valid() && b.Valid() && Streaming(b.q, groups, b.answers, done) && Wrote(b.q, was, groups, w.sent)
    modifies w, b
    ensures w.Valid() && b.Valid() && count == |w.sent| - |old(w.sent)| && Wrote(b.q, was, grown, w.sent)
    ensures r == AddResult(b.q, old(b.answers), item, |old(w.sent)| < w.limit)
    ensures r == Done ==> Streaming(b.q, grown, b.answers, done + Bodies(item))
    ensures r != Done ==> CutShort(b.q, grown, done)
    ensures r == IoFailed ==> grown == groups && Stalled(b.q, groups, done)
  {
    count, grown := 0, groups;
    GroupsFit(b.q, groups, b.answers, done);
    if item.Invalid? { return ComposeFailed, 0, groups; }
    if item.Skipped? {
      assert done + [] == done;
      return Done, 0, groups;
    }
    ghost var pending := b.answers;
    b.PushAnswer(item.bytes);
    if MessageLen(b.q, b.answersLen) <= DNS_TCP_MAX_SIZE {
      StreamGrows(b.q, groups, pending, done, item.bytes);
      return Done, 0, groups;
    }
    var last := b.PopLastAnswer();
    assert b.answers == pending && last == item.bytes;
    if |b.answers| == 0 {
      b.PushAnswer(last);
      return TooLarge, 0, groups;
    }
    r, count, grown := FlushAndPush(w, b, last, was, groups, done);
  }

  lemma GroupsFit(q: Query, groups: seq<seq<Bytes>>, pending: seq<Bytes>, done: seq<Bytes>)
    requires QueryOk(q) && Streaming(q, groups, pending, done)
    ensures Fits(q, pending) && (forall g | g in groups :: g != [] && Fits(q, g)) && Concat(groups) + pending == done
  {
    SplitsSnoc(q, groups, pending, done);
  }

  /** Every answer of a transfer, in order. */
  function AllBodies(items: seq<Composed>): seq<Bytes> {
    if items == [] then [] else AllBodies(items[..|items| - 1]) + Bodies(items[|items| - 1])
  }

  /** No answer failed to compose. */
  predicate Composes(items: seq<Composed>) { Invalid !in items }

  /** What a transfer needs: every answer composes, and some split of the answers into messages
      within the size limit that the connection has room for. */
  ghost predicate Deliverable(q: Query, items: seq<Composed>, room: int) {
    Composes(items) && exists split :: Splits(q, split, AllBodies(items)) && |split| <= room
  }

  /** Why a transfer is cut short. */
  ghost predicate Explains(r: XfrResult, q: Query, items: seq<Composed>, groups: seq<seq<Bytes>>, exhausted: bool) {
    match r
    case Done => Composes(items)
    case ComposeFailed => !Composes(items)
    case TooLarge => exists a | Answer(a) in items :: !Fits(q, [a])
    case IoFailed => exhausted && Stalled(q, groups, AllBodies(items))
  }

  /** The groups are written, and greedily filled ones, of a prefix of the answers that they do not exhaust. */
  ghost predicate Stalled(q: Query, groups: seq<seq<Bytes>>, answers: seq<Bytes>) {
    exists pending, done :: Streaming(q, groups, pending, done) && pending != [] && done <= answers
  }

  lemma StalledGrows(q: Query, groups: seq<seq<Bytes>>, answers: seq<Bytes>, more: seq<Bytes>)
    requires Stalled(q, groups, answers) && answers <= more
    ensures Stalled(q, groups, more)
  {
    var pending, done :| Streaming(q, groups, pending, done) && pending != [] && done <= answers;
    assert done <= more;
  }

  lemma {:induction false} MemberFits(q: Query, groups: seq<seq<Bytes>>, answers: seq<Bytes>, a: Bytes)
    requires Splits(q, groups, answers) && a in answers
    ensures Fits(q, [a])
    decreases |groups|
  {
    var n := |groups| - 1;
    var last := groups[n];
    if a in last {
      assert last in groups;
      var i :| 0 <= i < |last| && last[i] == a;
      SizeSub(last, 0, |last|, i, i + 1);
      assert last[0..|last|] == last && last[i..i + 1] == [a];
    } else {
      MemberFits(q, groups[..n], Concat(groups[..n]), a);
    }
  }

  /** Taking in the remaining answers only adds groups. */
  lemma {:induction false} StreamRest(q: Query, groups: seq<seq<Bytes>>, pending: seq<Bytes>, done: seq<Bytes>,
                                      rest: seq<Bytes>)
    returns (groups': seq<seq<Bytes>>, pending': seq<Bytes>)
    requires Streaming(q, groups, pending, done) && pending != [] && forall a | a in rest :: Fits(q, [a])
    ensures Streaming(q, groups', pending', done + rest) && pending' != [] && |groups| <= |groups'|
    decreases |rest|
  {
    if rest == [] {
      groups', pending' := groups, pending;
      assert done + rest == done;
    } else {
      assert rest[0] in rest;
      assert done + [rest[0]] + rest[1..] == done + rest;
      if Fits(q, pending + [rest[0]]) {
        StreamGrows(q, groups, pending, done, rest[0]);
        groups', pending' := StreamRest(q, groups, pending + [rest[0]], done + [rest[0]], rest[1..]);
      } else {
        StreamFlushes(q, groups, pending, done, rest[0]);
        groups', pending' := StreamRest(q, groups + [pending], [rest[0]], done + [rest[0]], rest[1..]);
      }
    }
  }

  /** However the answers are split, more messages are needed than were written. */
  lemma StalledNeedsMore(q: Query, groups: seq<seq<Bytes>>, answers: seq<Bytes>, other: seq<seq<Bytes>>)
    requires Stalled(q, groups, answers) && Splits(q, other, answers)
    ensures |groups| < |other|
  {
    var pending, done :| Streaming(q, groups, pending, done) && pending != [] && done <= answers;
    forall a | a in answers ensures Fits(q, [a]) { MemberFits(q, other, answers, a); }
    assert done + answers[|done|..] == answers;
    var groups', pending' := StreamRest(q, groups, pending, done, answers[|done|..]);
    StreamEnds(q, groups', pending', answers);
    GreedyOptimal(q, groups' + Pending(pending'), other, answers);
  }

  lemma {:induction false} BodiesMember(items: seq<Composed>, a: Bytes)
    requires Answer(a) in items
    ensures a in AllBodies(items)
    decreases |items|
  {
    var n := |items| - 1;
    if items[n] != Answer(a) { BodiesMember(items[..n], a); }
  }

  /** A transfer that was cut short could not have been completed. */
  lemma CutShortOnly(q: Query, items: seq<Composed>, r: XfrResult, groups: seq<seq<Bytes>>, room: int)
    requires r != Done && Explains(r, q, items, groups, |groups| == room)
    ensures !Deliverable(q, items, room)
  {
    forall split | Splits(q, split, AllBodies(items)) ensures r == ComposeFailed || |split| > room {
      if r == TooLarge {
        var a :| Answer(a) in items && !Fits(q, [a]);
        BodiesMember(items, a);
        MemberFits(q, split, AllBodies(items), a);
      } else if r == IoFailed {
        StalledNeedsMore(q, groups, AllBodies(items), split);
      }
    }
  }

  lemma AddExplained(q: Query, pending: seq<Bytes>, items: seq<Composed>, i: nat, room: bool)
    requires i < |items|
    ensures var r := AddResult(q, pending, items[i], room);
            && (r == Done ==> items[i] != Invalid)
            && (r == ComposeFailed ==> !Composes(items))
            && (r == TooLarge ==> exists a | Answer(a) in items :: !Fits(q, [a]))
            && (r == IoFailed ==> !room)
  {
    assert items[i] in items;
    if AddResult(q, pending, items[i], room) == TooLarge { TooLargeAlone(q, pending, items[i], room); }
  }

  /** The answer loop of a transfer. */
  method SendItems(w: Writer, b: DnsMessageBuilder, items: seq<Composed>)
    returns (r: XfrResult, messagesSent: nat, ghost groups: seq<seq<Bytes>>)
    requires w.Valid() && b.Valid() && b.answers == []
    modifies w, b
    ensures w.Valid() && b.Valid()
    ensures Wrote(b.q, old(w.sent), groups, w.sent) && messagesSent == |w.sent| - |old(w.sent)|
    ensures r == Done ==> Streaming(b.q, groups, b.answers, AllBodies(items))
    ensures r != Done ==> CutShort(b.q, groups, AllBodies(items))
    ensures Explains(r, b.q, items, groups, |w.sent| == w.limit)
  {
    r, messagesSent, groups := Done, 0, [];
    WroteStart(b.q, w.sent);
    for i := 0 to |items|
      invariant w.Valid() && b.Valid() && Composes(items[..i])
      invariant Streaming(b.q, groups, b.answers, AllBodies(items[..i]))
      invariant Wrote(b.q, old(w.sent), groups, w.sent) && messagesSent == |w.sent| - |old(w.sent)|
    {
      assert items[..i + 1][..i] == items[..i];
      AddExplained(b.q, b.answers, items, i, |w.sent| < w.limit);
      var count;
      r, count, groups := AddAnswerAndFlush(w, b, items[i], old(w.sent), groups, AllBodies(items[..i]));
      messagesSent := messagesSent + count;
      if r != Done {
        PrefixBodies(items, i);
        if r == IoFailed { StalledGrows(b.q, groups, AllBodies(items[..i]), AllBodies(items)); }
        return;
      }
    }
    assert items[..|items|] == items;
    r := Done;
  }

  /** The answer loop of a transfer and its final flush. It completes exactly when every answer
      composes and the connection has room for some split of the answers into messages of at most
      65535 bytes. Complete, it has written the answers in order, in greedily filled messages; cut
      short, a prefix of them; and the counter is the number of messages written either way. */
  method SendAll(w: Writer, q: Query, items: seq<Composed>)
    returns (r: XfrResult, messagesSent: nat, ghost groups: seq<seq<Bytes>>)
    requires w.Valid() && QueryOk(q)
    modifies w
    ensures w.Valid() && Wrote(q, old(w.sent), groups, w.sent) && messagesSent == |w.sent| - |old(w.sent)|
    ensures CutShort(q, groups, AllBodies(items))
    ensures r == Done <==> Deliverable(q, items, w.limit - |old(w.sent)|)
    ensures r == Done ==> Splits(q, groups, AllBodies(items)) && Greedy(q, groups)
    ensures Explains(r, q, items, groups, |w.sent| == w.limit)
  {
    var b := new DnsMessageBuilder(q);
    r, messagesSent, groups := SendItems(w, b, items);
    if r == Done { r, messagesSent, groups := FinalFlush(w, b, items, old(w.sent), messagesSent, groups); }
    WroteCount(q, old(w.sent), groups, w.sent);
    if r != Done { CutShortOnly(q, items, r, groups, w.limit - |old(w.sent)|); }
  }

  /** What is still pending after the last answer goes out as the last message. */
  method FinalFlush(w: Writer, b: DnsMessageBuilder, ghost items: seq<Composed>, ghost was: seq<Bytes>, sentBefore: nat,
                    ghost groups: seq<seq<Bytes>>)
    returns (r: XfrResult, messagesSent: nat, ghost grown: seq<seq<Bytes>>)
    requires w.Valid() && b.Valid() && Wrote(b.q, was, groups, w.sent) && sentBefore == |w.sent| - |was|
    requires Streaming(b.q, groups, b.answers, AllBodies(items)) && Composes(items)
    modifies w, b
    ensures w.Valid() && b.Valid() && Wrote(b.q, was, grown, w.sent) && messagesSent == |w.sent| - |was|
    ensures CutShort(b.q, grown, AllBodies(items))
    ensures r == Done ==> Splits(b.q, grown, AllBodies(items)) && Greedy(b.q, grown)
    ensures Explains(r, b.q, items, grown, |w.sent| == w.limit)
  {
    GroupsFit(b.q, groups, b.answers, AllBodies(items));
    StreamEnds(b.q, groups, b.answers, AllBodies(items));
    WroteNext(b.q, was, groups, w.sent, b.answers);
    ghost var last := b.answers;
    var count;
    r, count := FlushIfNotEmpty(w, b);
    messagesSent, grown := sentBefore + count, groups;
    if r == Done { grown := groups + Pending(last); }
    assert groups + [] == groups;
  }

  lemma WroteCount(q: Query, was: seq<Bytes>, groups: seq<seq<Bytes>>, sent: seq<Bytes>)
    requires Wrote(q, was, groups, sent)
    ensures |sent| == |was| + |groups|
  {
    assert Follows(q, was, groups, sent);
  }

  /** An incremental reply with its fallback: a full transfer follows only an incremental one that
      could not complete and of which nothing was written, so the connection never carries parts
      of both. */
  method Respond(w: Writer, q: Query, steps: seq<Composed>, full: seq<Composed>)
    returns (r: XfrResult, messagesSent: nat, ghost items: seq<Composed>, ghost groups: seq<seq<Bytes>>)
    requires w.Valid() && QueryOk(q)
    modifies w
    ensures w.Valid() && Wrote(q, old(w.sent), groups, w.sent) && messagesSent == |w.sent| - |old(w.sent)|
    ensures || (items == steps && (r == Done || messagesSent > 0))
            || (items == full && !Deliverable(q, steps, w.limit - |old(w.sent)|))
    ensures CutShort(q, groups, AllBodies(items))
    ensures r == Done <==> Deliverable(q, items, w.limit - |old(w.sent)|)
    ensures r == Done ==> Splits(q, groups, AllBodies(items)) && Greedy(q, groups)
    ensures Explains(r, q, items, groups, |w.sent| == w.limit)
  {
    items := steps;
    r, messagesSent, groups := SendAll(w, q, steps);
    if r == Done || messagesSent > 0 { return; }
    assert w.sent == old(w.sent) by { assert Follows(q, old(w.sent), groups, w.sent); }
    items := full;
    r, messagesSent, groups := SendAll(w, q, full);
  }

  lemma StreamEnds(q: Query, groups: seq<seq<Bytes>>, pending: seq<Bytes>, done: seq<Bytes>)
    requires Streaming(q, groups, pending, done)
    ensures Splits(q, groups + Pending(pending), done) && Greedy(q, groups + Pending(pending))
  {
    assert Underway(q, groups, pending, done);
  }

  lemma {:induction false} PrefixBodies(items: seq<Composed>, n: nat)
    requires n <= |items|
    ensures AllBodies(items[..n]) <= AllBodies(items)
    decreases |items|
  {
    if n < |items| {
      assert items[..|items| - 1][..n] == items[..n];
      PrefixBodies(items[..|items| - 1], n);
    } else {
      assert items[..n] == items;
    }
  }

  /** An answer that overflows the empty message overflows on its own. */
  lemma TooLargeAlone(q: Query, pending: seq<Bytes>, item: Composed, room: bool)
    requires item.Answer? && AddResult(q, pending, item, room) == TooLarge
    ensures !Fits(q, [item.bytes])
  {
    if pending == [] { assert pending + [item.bytes] == [item.bytes]; }
  }

  /** A transfer that completes used the fewest messages any split of its answers can, and a reader
      of what it wrote recovers exactly those messages, each with its true answer count. */
  lemma TransferOptimal(q: Query, groups: seq<seq<Bytes>>, answers: seq<Bytes>, other: seq<seq<Bytes>>)
    requires Splits(q, groups, answers) && Greedy(q, groups) && Splits(q, other, answers)
    requires forall a | a in answers :: MIN_ANSWER <= |a|
    ensures |groups| <= |other|
    ensures ReadsAs(Concat(Frames(Messages(q, groups))), Messages(q, groups))
    ensures forall k | 0 <= k < |groups| ::
              FromU16(Messages(q, groups)[k][6], Messages(q, groups)[k][7]) == |groups[k]|
  {
    GreedyOptimal(q, groups, other, answers);
    forall k | 0 <= k < |groups|
      ensures |Messages(q, groups)[k]| <= DNS_TCP_MAX_SIZE
      ensures FromU16(Messages(q, groups)[k][6], Messages(q, groups)[k][7]) == |groups[k]|
    {
      assert groups[k] in groups;
      LengthExact(q, groups[k]);
      GroupIsSlice(q, groups, answers, k);
      CountExact(q, groups[k]);
    }
    FramesReadBack(Messages(q, groups));
  }
}
