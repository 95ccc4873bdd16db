/** The delivery loop of `upload_all` in boat/quiz_bot.py: the bank is cut
    into batches of `BATCH_SIZE` items, each item is sent as a quiz poll, a
    failed send is logged and skipped, and the pauses between polls and
    between batches are recorded as events of the run's trace. */
module Upload {
  import opened Wrappers
  import opened PyText
  import opened QuizBank

  const BATCH_SIZE: nat := 100
  const DELAY_BETWEEN_POLLS: nat := 2
  const DELAY_BETWEEN_BATCHES: nat := 10

  /** The cuts applied while building a poll. */
  const MAX_QUESTION: nat := 300
  const MAX_OPTIONS: nat := 10
  const MAX_EXPLANATION: nat := 200

  /** The arguments of one `send_poll` call. The chat id is the same for a
      whole run and the poll type is always "quiz", so neither is kept. */
  datatype Poll = Poll(
    question: string,
    options: seq<string>,
    correctOptionId: int,
    explanation: string,
    isAnonymous: bool)

  /** What a run does, in order: one send attempt with its outcome, or a
      pause of some seconds. */
  datatype Event = Send(poll: Poll, delivered: bool) | Sleep(seconds: nat)

  function Min(a: int, b: int): int {
    if a <= b then a else b
  }

  // ---------------------------------------------------------------- payload

  /** The question text before it is cut: "<no>) <question>", a blank line,
      then the reference on its own line when there is a non-empty one. */
  function Caption(item: QuizItem): string {
    item.questionNo + ") " + item.question + "\n\n" +
    (if item.reference.Some? && item.reference.value != "" then item.reference.value + "\n" else "")
  }

  /** `(item.description or "")` */
  function DescriptionText(item: QuizItem): string {
    if item.description.Some? then item.description.value else ""
  }

  /** The poll sent for `item`. */
  function PollFor(item: QuizItem): Poll {
    Poll(Take(Caption(item), MAX_QUESTION), Take(item.options, MAX_OPTIONS), item.correctOptionId,
         Take(DescriptionText(item), MAX_EXPLANATION), false)
  }

  /** Every text of the poll is within the limits of a quiz poll, a prefix of
      what the item holds, equal to it when it fits and exactly as long as
      the limit when it does not; the answer index is passed through and the
      poll is never anonymous. */
  lemma PollForLimits(item: QuizItem)
    ensures var p := PollFor(item);
      |p.question| <= MAX_QUESTION && p.question <= Caption(item) &&
      (|Caption(item)| <= MAX_QUESTION ==> p.question == Caption(item)) &&
      (MAX_QUESTION <= |Caption(item)| ==> |p.question| == MAX_QUESTION) &&
      |p.options| <= MAX_OPTIONS && p.options <= item.options &&
      (|item.options| <= MAX_OPTIONS ==> p.options == item.options) &&
      (MAX_OPTIONS <= |item.options| ==> |p.options| == MAX_OPTIONS) &&
      |p.explanation| <= MAX_EXPLANATION && p.explanation <= DescriptionText(item) &&
      (|DescriptionText(item)| <= MAX_EXPLANATION ==> p.explanation == DescriptionText(item)) &&
      (MAX_EXPLANATION <= |DescriptionText(item)| ==> |p.explanation| == MAX_EXPLANATION) &&
      p.correctOptionId == item.correctOptionId && !p.isAnonymous
  {
    TakeSpec(Caption(item), MAX_QUESTION);
    TakeSpec(item.options, MAX_OPTIONS);
    TakeSpec(DescriptionText(item), MAX_EXPLANATION);
  }

  /** For an item the loader produced, the poll keeps every option and its
      answer index points at the right one. */
  lemma LoadedItemPoll(item: QuizItem)
    requires ValidItem(item)
    ensures PollFor(item).options == item.options
    ensures 0 <= PollFor(item).correctOptionId < |PollFor(item).options|
    ensures PollFor(item).options[PollFor(item).correctOptionId] == item.options[item.correctOptionId]
  {
    PollForLimits(item);
  }

  /** The caption opens with the item's number and question. */
  lemma CaptionStartsWithQuestion(item: QuizItem)
    ensures item.questionNo + ") " + item.question <= Caption(item)
    ensures |Caption(item)| >= |item.questionNo| + |item.question| + 4
  {
    var head := item.questionNo + ") " + item.question;
    assert Caption(item) == head + ("\n\n" +
      (if item.reference.Some? && item.reference.value != "" then item.reference.value + "\n" else ""));
  }

  // ---------------------------------------------------------------- batches

  function Flatten<T>(ss: seq<seq<T>>): seq<T> {
    if ss == [] then [] else ss[0] + Flatten(ss[1..])
  }

  lemma {:induction false} FlattenAppend<T>(a: seq<seq<T>>, b: seq<seq<T>>)
    ensures Flatten(a + b) == Flatten(a) + Flatten(b)
  {
    if a == [] {
      assert a + b == b;
    } else {
      assert (a + b)[1..] == a[1..] + b;
      FlattenAppend(a[1..], b);
    }
  }

  /** The slices `items[start:start+BATCH_SIZE]` for start = 0, BATCH_SIZE,
      2*BATCH_SIZE, ...; put back together they give the items, in order. */
  function Batches<T>(s: seq<T>): (bs: seq<seq<T>>)
    ensures Flatten(bs) == s
    decreases |s|
  {
    if |s| == 0 then []
    else if |s| <= BATCH_SIZE then
      assert Flatten([s]) == s + Flatten<T>([]);
      [s]
    else
      var rest := Batches(s[BATCH_SIZE..]);
      var bs := [s[..BATCH_SIZE]] + rest;
      assert bs[1..] == rest;
      assert s == s[..BATCH_SIZE] + s[BATCH_SIZE..];
      bs
  }

  /** There are ceil(n / BATCH_SIZE) batches, none empty, all full but
      possibly the last. */
  lemma {:induction false} BatchesShape<T>(s: seq<T>)
    ensures |Batches(s)| == (|s| + BATCH_SIZE - 1) / BATCH_SIZE
    ensures forall k :: 0 <= k < |Batches(s)| ==> 0 < |Batches(s)[k]| <= BATCH_SIZE
    ensures forall k :: 0 <= k < |Batches(s)| - 1 ==> |Batches(s)[k]| == BATCH_SIZE
    decreases |s|
  {
    if |s| > BATCH_SIZE {
      var tail := s[BATCH_SIZE..];
      BatchesShape(tail);
      var bs := Batches(s);
      assert bs == [s[..BATCH_SIZE]] + Batches(tail);
      forall k | 0 < k < |bs|
        ensures bs[k] == Batches(tail)[k - 1]
      {
      }
    }
  }

  /** Batch `k` is the slice that starts at `k * BATCH_SIZE`. */
  lemma {:induction false} BatchAt<T>(s: seq<T>, k: nat)
    requires k < |Batches(s)|
    ensures k * BATCH_SIZE < |s|
    ensures Batches(s)[k] == s[k * BATCH_SIZE..Min(k * BATCH_SIZE + BATCH_SIZE, |s|)]
    decreases |s|
  {
    if |s| > BATCH_SIZE && k > 0 {
      var tail := s[BATCH_SIZE..];
      assert Batches(s)[k] == Batches(tail)[k - 1];
      BatchAt(tail, k - 1);
      assert tail[(k - 1) * BATCH_SIZE..Min((k - 1) * BATCH_SIZE + BATCH_SIZE, |tail|)]
          == s[k * BATCH_SIZE..Min(k * BATCH_SIZE + BATCH_SIZE, |s|)];
    }
  }

  /** The first `k` batches hold the first `k * BATCH_SIZE` items. */
  lemma {:induction false} BatchesPrefix<T>(s: seq<T>, k: nat)
    requires k <= |Batches(s)|
    ensures Flatten(Batches(s)[..k]) == s[..Min(k * BATCH_SIZE, |s|)]
    ensures |Flatten(Batches(s)[..k])| == Min(k * BATCH_SIZE, |s|)
    decreases |s|
  {
    var bs := Batches(s);
    if k == 0 {
      assert bs[..k] == [];
    } else if |s| <= BATCH_SIZE {
      assert bs[..k] == bs;
    } else {
      var tail := s[BATCH_SIZE..];
      assert bs[..k] == [s[..BATCH_SIZE]] + Batches(tail)[..k - 1];
      BatchesPrefix(tail, k - 1);
      assert Flatten(bs[..k]) == s[..BATCH_SIZE] + Flatten(Batches(tail)[..k - 1]);
      assert s[..Min(k * BATCH_SIZE, |s|)]
          == s[..BATCH_SIZE] + tail[..Min((k - 1) * BATCH_SIZE, |tail|)];
    }
  }

  /** The example of a bank of 250 questions: batches of 100, 100 and 50. */
  lemma BatchesOf250<T>(s: seq<T>)
    requires |s| == 250
    ensures |Batches(s)| == 3
    ensures |Batches(s)[0]| == 100 && |Batches(s)[1]| == 100 && |Batches(s)[2]| == 50
  {
    BatchesShape(s);
    BatchAt(s, 2);
  }

  // ---------------------------------------------------------------- traces

  /** The events for one item: its send attempt, then the pause between polls
      only when the send went through (the pause sits inside the `try`). */
  function ItemEvents(item: QuizItem, delivered: bool): seq<Event> {
    [Send(PollFor(item), delivered)] + (if delivered then [Sleep(DELAY_BETWEEN_POLLS)] else [])
  }

  /** The events for the items of one batch, whose first item is item number
      `base` of the run; the send of item i goes through when `i in delivered`. */
  function ItemsTrace(batch: seq<QuizItem>, base: nat, delivered: set<nat>): seq<Event> {
    if batch == [] then []
    else ItemEvents(batch[0], base in delivered) + ItemsTrace(batch[1..], base + 1, delivered)
  }

  /** The events for one batch: its items, then the pause between batches. */
  function BatchEvents(batch: seq<QuizItem>, base: nat, delivered: set<nat>): seq<Event> {
    ItemsTrace(batch, base, delivered) + [Sleep(DELAY_BETWEEN_BATCHES)]
  }

  /** The events for a sequence of batches: each batch's items, then the
      pause between batches. */
  function BatchesTrace(bs: seq<seq<QuizItem>>, base: nat, delivered: set<nat>): seq<Event> {
    if bs == [] then []
    else BatchEvents(bs[0], base, delivered) + BatchesTrace(bs[1..], base + |bs[0]|, delivered)
  }

  /** The events of a whole run over `items`. */
  function UploadTrace(items: seq<QuizItem>, delivered: set<nat>): seq<Event> {
    BatchesTrace(Batches(items), 0, delivered)
  }

  lemma {:induction false} ItemsTraceSnoc(batch: seq<QuizItem>, x: QuizItem, base: nat, delivered: set<nat>)
    ensures ItemsTrace(batch + [x], base, delivered) ==
            ItemsTrace(batch, base, delivered) + ItemEvents(x, base + |batch| in delivered)
  {
    if batch == [] {
      assert ItemsTrace([x], base, delivered) == ItemEvents(x, base in delivered) + ItemsTrace([], base + 1, delivered);
    } else {
      assert (batch + [x])[1..] == batch[1..] + [x];
      ItemsTraceSnoc(batch[1..], x, base + 1, delivered);
    }
  }

  lemma BatchesTraceOne(b: seq<QuizItem>, base: nat, delivered: set<nat>)
    ensures BatchesTrace([b], base, delivered) == BatchEvents(b, base, delivered)
  {
    var t := [b];
    assert t[0] == b && t[1..] == [];
    var e := BatchEvents(b, base, delivered);
    assert BatchesTrace(t, base, delivered) == e + BatchesTrace([], base + |b|, delivered);
    assert e + [] == e;
  }

  lemma {:induction false} BatchesTraceSnoc(bs: seq<seq<QuizItem>>, b: seq<QuizItem>, base: nat, delivered: set<nat>)
    ensures BatchesTrace(bs + [b], base, delivered) ==
            BatchesTrace(bs, base, delivered) + BatchEvents(b, base + |Flatten(bs)|, delivered)
  {
    if bs == [] {
      assert bs + [b] == [b];
      BatchesTraceOne(b, base, delivered);
      assert BatchesTrace(bs, base, delivered) + BatchEvents(b, base, delivered) ==
             BatchEvents(b, base, delivered);
    } else {
      var base' := base + |bs[0]|;
      assert (bs + [b])[0] == bs[0] && (bs + [b])[1..] == bs[1..] + [b];
      assert |Flatten(bs)| == |bs[0]| + |Flatten(bs[1..])|;
      BatchesTraceSnoc(bs[1..], b, base', delivered);
      AppendAssoc(BatchEvents(bs[0], base, delivered), BatchesTrace(bs[1..], base', delivered),
        BatchEvents(b, base + |Flatten(bs)|, delivered));
    }
  }

  // ---------------------------------------------------------------- properties of a run

  /** The send attempts of a trace, in order. */
  function Attempts(t: seq<Event>): (r: seq<Event>)
    ensures |r| <= |t|
  {
    if t == [] then []
    else (if t[0].Send? then [t[0]] else []) + Attempts(t[1..])
  }

  lemma {:induction false} AttemptsAppend(a: seq<Event>, b: seq<Event>)
    ensures Attempts(a + b) == Attempts(a) + Attempts(b)
  {
    if a == [] {
      assert a + b == b;
    } else {
      var head := if a[0].Send? then [a[0]] else [];
      assert (a + b)[0] == a[0];
      assert (a + b)[1..] == a[1..] + b;
      assert Attempts(a + b) == head + Attempts(a[1..] + b);
      AttemptsAppend(a[1..], b);
      assert Attempts(a) == head + Attempts(a[1..]);
    }
  }

  lemma ItemEventsAttempts(item: QuizItem, delivered: bool)
    ensures Attempts(ItemEvents(item, delivered)) == [Send(PollFor(item), delivered)]
  {
    AttemptsAppend([Send(PollFor(item), delivered)],
      if delivered then [Sleep(DELAY_BETWEEN_POLLS)] else []);
  }

  /** One send attempt per item, in order, item `i` having outcome
      `base + i in delivered`. */
  function AttemptsFor(items: seq<QuizItem>, base: nat, delivered: set<nat>): seq<Event> {
    if items == [] then []
    else [Send(PollFor(items[0]), base in delivered)] + AttemptsFor(items[1..], base + 1, delivered)
  }

  lemma {:induction false} AttemptsForAt(items: seq<QuizItem>, base: nat, delivered: set<nat>)
    ensures |AttemptsFor(items, base, delivered)| == |items|
    ensures forall i :: 0 <= i < |items| ==>
      AttemptsFor(items, base, delivered)[i] == Send(PollFor(items[i]), base + i in delivered)
  {
    if items != [] {
      AttemptsForAt(items[1..], base + 1, delivered);
      var r := AttemptsFor(items, base, delivered);
      forall i | 0 < i < |items|
        ensures r[i] == Send(PollFor(items[i]), base + i in delivered)
      {
        assert r[i] == AttemptsFor(items[1..], base + 1, delivered)[i - 1];
        assert items[i] == items[1..][i - 1];
      }
    }
  }

  lemma {:induction false} AttemptsForAppend(a: seq<QuizItem>, b: seq<QuizItem>, base: nat, delivered: set<nat>)
    ensures AttemptsFor(a + b, base, delivered) ==
            AttemptsFor(a, base, delivered) + AttemptsFor(b, base + |a|, delivered)
  {
    if a == [] {
      assert a + b == b;
    } else {
      assert (a + b)[0] == a[0];
      assert (a + b)[1..] == a[1..] + b;
      AttemptsForAppend(a[1..], b, base + 1, delivered);
    }
  }

  lemma {:induction false} ItemsTraceAttempts(batch: seq<QuizItem>, base: nat, delivered: set<nat>)
    ensures Attempts(ItemsTrace(batch, base, delivered)) == AttemptsFor(batch, base, delivered)
  {
    if batch != [] {
      var rest := ItemsTrace(batch[1..], base + 1, delivered);
      AttemptsAppend(ItemEvents(batch[0], base in delivered), rest);
      ItemEventsAttempts(batch[0], base in delivered);
      ItemsTraceAttempts(batch[1..], base + 1, delivered);
    }
  }

  /** A pause between batches is no send attempt. */
  lemma BatchAttempts(bs: seq<seq<QuizItem>>, base: nat, delivered: set<nat>)
    requires bs != []
    ensures Attempts(BatchesTrace(bs, base, delivered)) ==
            Attempts(ItemsTrace(bs[0], base, delivered)) +
            Attempts(BatchesTrace(bs[1..], base + |bs[0]|, delivered))
  {
    var first := ItemsTrace(bs[0], base, delivered);
    var rest := BatchesTrace(bs[1..], base + |bs[0]|, delivered);
    assert BatchesTrace(bs, base, delivered) == first + [Sleep(DELAY_BETWEEN_BATCHES)] + rest;
    AttemptsAppend(first + [Sleep(DELAY_BETWEEN_BATCHES)], rest);
    AttemptsAppend(first, [Sleep(DELAY_BETWEEN_BATCHES)]);
    assert Attempts([Sleep(DELAY_BETWEEN_BATCHES)]) == [];
    assert Attempts(first + [Sleep(DELAY_BETWEEN_BATCHES)]) == Attempts(first);
  }

  lemma {:induction false} BatchesTraceAttempts(bs: seq<seq<QuizItem>>, base: nat, delivered: set<nat>)
    ensures Attempts(BatchesTrace(bs, base, delivered)) == AttemptsFor(Flatten(bs), base, delivered)
  {
    if bs != [] {
      var base' := base + |bs[0]|;
      BatchAttempts(bs, base, delivered);
      ItemsTraceAttempts(bs[0], base, delivered);
      BatchesTraceAttempts(bs[1..], base', delivered);
      AttemptsForAppend(bs[0], Flatten(bs[1..]), base, delivered);
      calc {
        Attempts(BatchesTrace(bs, base, delivered));
        Attempts(ItemsTrace(bs[0], base, delivered)) + Attempts(BatchesTrace(bs[1..], base', delivered));
        AttemptsFor(bs[0], base, delivered) + AttemptsFor(Flatten(bs[1..]), base', delivered);
        AttemptsFor(bs[0] + Flatten(bs[1..]), base, delivered);
        { assert Flatten(bs) == bs[0] + Flatten(bs[1..]); }
        AttemptsFor(Flatten(bs), base, delivered);
      }
    }
  }

  /** Every item of the bank is attempted exactly once, in bank order, as
      the poll built from it, whatever earlier sends did: a failure skips
      only that item. */
  lemma UploadAttemptsEveryItem(items: seq<QuizItem>, delivered: set<nat>)
    ensures |Attempts(UploadTrace(items, delivered))| == |items|
    ensures forall i :: 0 <= i < |items| ==>
      Attempts(UploadTrace(items, delivered))[i] == Send(PollFor(items[i]), i in delivered)
  {
    var bs := Batches(items);
    assert Flatten(bs) == items;
    BatchesTraceAttempts(bs, 0, delivered);
    var r := Attempts(UploadTrace(items, delivered));
    assert r == AttemptsFor(items, 0, delivered);
    AttemptsForAt(items, 0, delivered);
    forall i | 0 <= i < |items|
      ensures r[i] == Send(PollFor(items[i]), i in delivered)
    {
      assert r[i] == AttemptsFor(items, 0, delivered)[i];
    }
  }

  /** How many pauses between batches a trace holds. */
  function BatchPauses(t: seq<Event>): (n: nat)
    ensures n <= |t|
  {
    if t == [] then 0
    else (if t[0] == Sleep(DELAY_BETWEEN_BATCHES) then 1 else 0) + BatchPauses(t[1..])
  }

  lemma {:induction false} BatchPausesAppend(a: seq<Event>, b: seq<Event>)
    ensures BatchPauses(a + b) == BatchPauses(a) + BatchPauses(b)
  {
    if a == [] {
      assert a + b == b;
    } else {
      assert (a + b)[1..] == a[1..] + b;
      BatchPausesAppend(a[1..], b);
    }
  }

  lemma {:induction false} ItemsTraceNoBatchPause(batch: seq<QuizItem>, base: nat, delivered: set<nat>)
    ensures BatchPauses(ItemsTrace(batch, base, delivered)) == 0
  {
    if batch != [] {
      var head := ItemEvents(batch[0], base in delivered);
      BatchPausesAppend(head, ItemsTrace(batch[1..], base + 1, delivered));
      ItemsTraceNoBatchPause(batch[1..], base + 1, delivered);
    }
  }

  lemma {:induction false} BatchesTracePauses(bs: seq<seq<QuizItem>>, base: nat, delivered: set<nat>)
    ensures BatchPauses(BatchesTrace(bs, base, delivered)) == |bs|
  {
    if bs != [] {
      var first := ItemsTrace(bs[0], base, delivered);
      var rest := BatchesTrace(bs[1..], base + |bs[0]|, delivered);
      BatchPausesAppend(first + [Sleep(DELAY_BETWEEN_BATCHES)], rest);
      BatchPausesAppend(first, [Sleep(DELAY_BETWEEN_BATCHES)]);
      ItemsTraceNoBatchPause(bs[0], base, delivered);
      BatchesTracePauses(bs[1..], base + |bs[0]|, delivered);
    }
  }

  /** A run pauses between batches once per batch: ceil(n / BATCH_SIZE)
      times, and not at all for an empty bank. */
  lemma UploadBatchPauses(items: seq<QuizItem>, delivered: set<nat>)
    ensures BatchPauses(UploadTrace(items, delivered)) == (|items| + BATCH_SIZE - 1) / BATCH_SIZE
    ensures items == [] <==> UploadTrace(items, delivered) == []
  {
    BatchesShape(items);
    BatchesTracePauses(Batches(items), 0, delivered);
  }

  /** The pause between polls follows exactly the sends that went through:
      an event is that pause if and only if the event before it is a
      delivered send, and a trace neither opens with that pause nor ends on
      a delivered send. */
  predicate Paced(t: seq<Event>) {
    (forall i :: 0 < i < |t| ==>
      (t[i] == Sleep(DELAY_BETWEEN_POLLS) <==> t[i - 1].Send? && t[i - 1].delivered)) &&
    (|t| > 0 ==> t[0] != Sleep(DELAY_BETWEEN_POLLS) && !(t[|t| - 1].Send? && t[|t| - 1].delivered))
  }

  lemma PacedAppend(a: seq<Event>, b: seq<Event>)
    requires Paced(a) && Paced(b)
    ensures Paced(a + b)
  {
    var t := a + b;
    forall i | 0 < i < |t|
      ensures t[i] == Sleep(DELAY_BETWEEN_POLLS) <==> t[i - 1].Send? && t[i - 1].delivered
    {
      if i < |a| {
        assert t[i] == a[i] && t[i - 1] == a[i - 1];
      } else if i == |a| {
        assert t[i] == b[0] && t[i - 1] == a[|a| - 1];
      } else {
        assert t[i] == b[i - |a|] && t[i - 1] == b[i - 1 - |a|];
      }
    }
    if |t| > 0 {
      if |a| > 0 {
        assert t[0] == a[0];
      }
      if |b| > 0 {
        assert t[|t| - 1] == b[|b| - 1];
      }
    }
  }

  lemma {:induction false} ItemsTracePaced(batch: seq<QuizItem>, base: nat, delivered: set<nat>)
    ensures Paced(ItemsTrace(batch, base, delivered))
  {
    if batch != [] {
      var head := ItemEvents(batch[0], base in delivered);
      assert Paced(head);
      ItemsTracePaced(batch[1..], base + 1, delivered);
      PacedAppend(head, ItemsTrace(batch[1..], base + 1, delivered));
    }
  }

  lemma {:induction false} BatchesTracePaced(bs: seq<seq<QuizItem>>, base: nat, delivered: set<nat>)
    ensures Paced(BatchesTrace(bs, base, delivered))
  {
    if bs != [] {
      var first := ItemsTrace(bs[0], base, delivered);
      var rest := BatchesTrace(bs[1..], base + |bs[0]|, delivered);
      ItemsTracePaced(bs[0], base, delivered);
      assert Paced([Sleep(DELAY_BETWEEN_BATCHES)]);
      PacedAppend(first, [Sleep(DELAY_BETWEEN_BATCHES)]);
      BatchesTracePaced(bs[1..], base + |bs[0]|, delivered);
      PacedAppend(first + [Sleep(DELAY_BETWEEN_BATCHES)], rest);
    }
  }

  /** A run only sends polls and takes the two pauses of `upload_all`. */
  predicate KnownEvents(t: seq<Event>) {
    forall i :: 0 <= i < |t| ==>
      t[i].Send? || t[i] == Sleep(DELAY_BETWEEN_POLLS) || t[i] == Sleep(DELAY_BETWEEN_BATCHES)
  }

  lemma KnownEventsAppend(a: seq<Event>, b: seq<Event>)
    requires KnownEvents(a) && KnownEvents(b)
    ensures KnownEvents(a + b)
  {
    forall i | 0 <= i < |a + b|
      ensures (a + b)[i] == (if i < |a| then a[i] else b[i - |a|])
    {
    }
  }

  lemma {:induction false} BatchesTraceKnown(bs: seq<seq<QuizItem>>, base: nat, delivered: set<nat>)
    ensures KnownEvents(BatchesTrace(bs, base, delivered))
  {
    if bs != [] {
      ItemsTraceKnown(bs[0], base, delivered);
      KnownEventsAppend(ItemsTrace(bs[0], base, delivered), [Sleep(DELAY_BETWEEN_BATCHES)]);
      BatchesTraceKnown(bs[1..], base + |bs[0]|, delivered);
      KnownEventsAppend(BatchEvents(bs[0], base, delivered), BatchesTrace(bs[1..], base + |bs[0]|, delivered));
    }
  }

  lemma {:induction false} ItemsTraceKnown(batch: seq<QuizItem>, base: nat, delivered: set<nat>)
    ensures KnownEvents(ItemsTrace(batch, base, delivered))
  {
    if batch != [] {
      ItemsTraceKnown(batch[1..], base + 1, delivered);
      KnownEventsAppend(ItemEvents(batch[0], base in delivered), ItemsTrace(batch[1..], base + 1, delivered));
    }
  }

  /** In a whole run, a pause between polls comes right after a send that
      went through, and after no other event; every event is a send or one
      of the two pauses, so a failed send is followed directly by the next
      send or by the pause between batches. */
  lemma UploadPaced(items: seq<QuizItem>, delivered: set<nat>)
    ensures Paced(UploadTrace(items, delivered))
    ensures KnownEvents(UploadTrace(items, delivered))
    ensures var t := UploadTrace(items, delivered);
      forall i :: 0 < i < |t| && t[i - 1].Send? && !t[i - 1].delivered ==>
        t[i].Send? || t[i] == Sleep(DELAY_BETWEEN_BATCHES)
  {
    BatchesTracePaced(Batches(items), 0, delivered);
    BatchesTraceKnown(Batches(items), 0, delivered);
  }

  // ---------------------------------------------------------------- the loop

  /** `k` batches of `BATCH_SIZE` stay short of `n` items exactly when there
      are batches left. */
  lemma BatchesLeft(n: nat, k: nat)
    ensures k * BATCH_SIZE < n <==> k < (n + BATCH_SIZE - 1) / BATCH_SIZE
  {
  }

  lemma AppendAssoc<T>(a: seq<T>, b: seq<T>, c: seq<T>)
    ensures a + (b + c) == (a + b) + c
  {
  }

  lemma TakeSnoc<T>(s: seq<T>, k: nat)
    requires k < |s|
    ensures s[..k + 1] == s[..k] + [s[k]]
  {
  }

  /** One turn of the outer loop of `upload_all`: batch `k` starts at item
      `k * BATCH_SIZE` and extends the trace by its items and a pause. */
  lemma UploadStep(items: seq<QuizItem>, k: nat, delivered: set<nat>)
    requires k < |Batches(items)|
    ensures k * BATCH_SIZE < |items|
    ensures BatchesTrace(Batches(items)[..k + 1], 0, delivered) ==
            BatchesTrace(Batches(items)[..k], 0, delivered) +
            BatchEvents(items[k * BATCH_SIZE..Min(k * BATCH_SIZE + BATCH_SIZE, |items|)], k * BATCH_SIZE, delivered)
  {
    var bs := Batches(items);
    var start := k * BATCH_SIZE;
    BatchAt(items, k);
    BatchesPrefix(items, k);
    assert |Flatten(bs[..k])| == start;
    var batch := items[start..Min(start + BATCH_SIZE, |items|)];
    assert bs[k] == batch;
    BatchesTraceSnoc(bs[..k], batch, 0, delivered);
    TakeSnoc(bs, k);
  }

  /** The inner loop of `upload_all`: one batch, whose first item is item
      number `start` of the run. */
  method SendBatch(batch: seq<QuizItem>, start: nat, delivered: set<nat>) returns (events: seq<Event>)
    ensures events == ItemsTrace(batch, start, delivered)
  {
    events := [];
    var idx := 0;
    while idx < |batch|
      invariant 0 <= idx <= |batch|
      invariant events == ItemsTrace(batch[..idx], start, delivered)
    {
      var item := batch[idx];
      var poll := PollFor(item);
      var ok := start + idx in delivered;
      ItemsTraceSnoc(batch[..idx], item, start, delivered);
      assert batch[..idx + 1] == batch[..idx] + [item];
      events := events + [Send(poll, ok)];
      if ok {
        AppendAssoc(events[..|events| - 1], [Send(poll, ok)], [Sleep(DELAY_BETWEEN_POLLS)]);
        events := events + [Sleep(DELAY_BETWEEN_POLLS)];
      }
      idx := idx + 1;
    }
    assert batch[..idx] == batch;
  }

  /** `upload_all` over the bank's items, `delivered` holding the numbers of
      the items whose send goes through. An empty bank returns at once;
      otherwise every batch is walked item by item. */
  method UploadAll(items: seq<QuizItem>, delivered: set<nat>) returns (trace: seq<Event>)
    ensures trace == UploadTrace(items, delivered)
  {
    trace := [];
    if |items| == 0 {
      return;
    }
    ghost var bs := Batches(items);
    BatchesShape(items);
    var start := 0;
    ghost var k := 0;
    while start < |items|
      invariant k <= |bs| && start == k * BATCH_SIZE
      invariant trace == BatchesTrace(bs[..k], 0, delivered)
      decreases |items| - start
    {
      BatchesLeft(|items|, k);
      UploadStep(items, k, delivered);
      var batch := items[start..Min(start + BATCH_SIZE, |items|)];
      var events := SendBatch(batch, start, delivered);
      AppendAssoc(trace, events, [Sleep(DELAY_BETWEEN_BATCHES)]);
      trace := trace + events + [Sleep(DELAY_BETWEEN_BATCHES)];
      start := start + BATCH_SIZE;
      k := k + 1;
    }
    BatchesLeft(|items|, k);
    assert bs[..k] == bs;
  }
}
