/**
 * The legacy scheduler: every item sits in a priority queue keyed on the time
 * it is next due. Each round drains the due items (pop, reschedule to now plus
 * the interval, push back, hand a copy to a worker), then sleeps until the head
 * item is due. A worker's text is appended to a file named after the key.
 */
module App {
  import opened Wrappers
  import opened Strings
  import Item

  /** An item of the legacy configuration: the key, the interval in seconds, when it is next due, and its source. */
  datatype LegacyItem = LegacyItem(key: string, interval: int, nextTime: int, kind: Item.ItemKind, env: map<string, string>)

  /** The legacy `[general]` section: the output directory and the shell for scripts. */
  datatype LegacyGeneral = LegacyGeneral(output: string, shell: string)

  /** What a spawned worker receives: the item as it was before rescheduling, the shell, the output directory, the clock. */
  datatype Job = Job(item: LegacyItem, shell: string, outputFolder: string, startedAt: int)

  // ------------------------------------------------------ queue contents

  predicate Due(x: LegacyItem, now: int) {
    x.nextTime <= now
  }

  function Keys(s: seq<LegacyItem>): (r: seq<string>)
    ensures |r| == |s|
  {
    if s == [] then [] else [s[0].key] + Keys(s[1..])
  }

  lemma {:induction false} KeysConcat(a: seq<LegacyItem>, b: seq<LegacyItem>)
    ensures Keys(a + b) == Keys(a) + Keys(b)
  {
    if a != [] {
      assert (a + b)[0] == a[0];
      assert (a + b)[1..] == a[1..] + b;
      KeysConcat(a[1..], b);
    } else {
      assert a + b == b;
    }
  }

  /** The items due at `now`, in queue order. */
  function DueOf(s: seq<LegacyItem>, now: int): (r: seq<LegacyItem>)
    ensures |r| <= |s|
    ensures forall i :: 0 <= i < |r| ==> Due(r[i], now)
  {
    if s == [] then [] else (if Due(s[0], now) then [s[0]] else []) + DueOf(s[1..], now)
  }

  lemma {:induction false} DueOfConcat(a: seq<LegacyItem>, b: seq<LegacyItem>, now: int)
    ensures DueOf(a + b, now) == DueOf(a, now) + DueOf(b, now)
  {
    if a != [] {
      assert (a + b)[0] == a[0];
      assert (a + b)[1..] == a[1..] + b;
      DueOfConcat(a[1..], b, now);
      var p := if Due(a[0], now) then [a[0]] else [];
      assert DueOf(a + b, now) == p + DueOf(a[1..] + b, now);
      assert DueOf(a, now) == p + DueOf(a[1..], now);
    } else {
      assert a + b == b;
    }
  }

  /** The due items are the items, counted with multiplicity, that are due, and nothing else. */
  lemma {:induction false} DueOfCount(s: seq<LegacyItem>, now: int, x: LegacyItem)
    ensures multiset(DueOf(s, now))[x] == if Due(x, now) then multiset(s)[x] else 0
  {
    if s != [] {
      DueOfCount(s[1..], now, x);
      assert s == [s[0]] + s[1..];
      assert multiset(s) == multiset{s[0]} + multiset(s[1..]);
    }
  }

  /** The position of the earliest due item, the first one among equals. */
  function MinIndex(s: seq<LegacyItem>): (m: nat)
    requires s != []
    ensures m < |s|
    ensures forall j :: 0 <= j < |s| ==> s[m].nextTime <= s[j].nextTime
  {
    if |s| == 1 then 0
    else
      var m := MinIndex(s[1..]);
      if s[0].nextTime <= s[m + 1].nextTime then 0 else m + 1
  }

  /** Removing the element at `m` takes away exactly that element, its key and, when it is due, one due item. */
  lemma RemoveAt(s: seq<LegacyItem>, m: nat, now: int)
    requires m < |s|
    ensures multiset(s[..m] + s[m + 1..]) + multiset{s[m]} == multiset(s)
    ensures multiset(Keys(s[..m] + s[m + 1..])) + multiset{s[m].key} == multiset(Keys(s))
    ensures |DueOf(s[..m] + s[m + 1..], now)| + (if Due(s[m], now) then 1 else 0) == |DueOf(s, now)|
  {
    assert s == s[..m] + [s[m]] + s[m + 1..];
    KeysConcat(s[..m], s[m + 1..]);
    KeysConcat(s[..m] + [s[m]], s[m + 1..]);
    KeysConcat(s[..m], [s[m]]);
    DueOfConcat(s[..m], s[m + 1..], now);
    DueOfConcat(s[..m] + [s[m]], s[m + 1..], now);
    DueOfConcat(s[..m], [s[m]], now);
  }

  /** An item moved to `now` plus its interval. */
  function Rescheduled(x: LegacyItem, now: int): (r: LegacyItem)
    ensures r.key == x.key && r.kind == x.kind && r.interval == x.interval && r.env == x.env
    ensures x.interval > 0 ==> !Due(r, now)
  {
    x.(nextTime := now + x.interval)
  }

  /** Rescheduling keeps everything but the due time, and with positive intervals nothing is due any more. */
  function RescheduleAll(s: seq<LegacyItem>, now: int): (r: seq<LegacyItem>)
    ensures |r| == |s|
    ensures forall i :: 0 <= i < |s| ==> r[i].key == s[i].key && r[i].kind == s[i].kind && r[i].interval == s[i].interval
    ensures forall i :: 0 <= i < |s| && s[i].interval > 0 ==> !Due(r[i], now)
  {
    if s == [] then [] else RescheduleAll(s[..|s| - 1], now) + [Rescheduled(s[|s| - 1], now)]
  }

  function JobItems(jobs: seq<Job>): (r: seq<LegacyItem>)
    ensures |r| == |jobs|
    ensures forall i :: 0 <= i < |jobs| ==> r[i] == jobs[i].item
  {
    if jobs == [] then [] else JobItems(jobs[..|jobs| - 1]) + [jobs[|jobs| - 1].item]
  }

  /** A job as the drain loop hands it out: the configured shell only for scripts, otherwise empty. */
  predicate JobFor(job: Job, general: LegacyGeneral, now: int) {
    && job.shell == (if job.item.kind.Shell? then general.shell else "")
    && job.outputFolder == general.output
    && job.startedAt == now
  }

  // ------------------------------------------------------ the queue

  /**
   * The heap of items. The ordering is taken as "earliest `nextTime` first";
   * the contents are kept as a sequence and `Peek` finds the earliest.
   */
  class ItemQueue {
    var items: seq<LegacyItem>

    constructor (items: seq<LegacyItem>)
      ensures this.items == items
    {
      this.items := items;
    }

    /** The earliest item, if there is one. */
    function Peek(): (r: Option<LegacyItem>)
      reads this
      ensures r.None? <==> items == []
      ensures r.Some? ==> r.value in items && forall j :: 0 <= j < |items| ==> r.value.nextTime <= items[j].nextTime
    {
      if items == [] then None else Some(items[MinIndex(items)])
    }

    /** Take out the earliest item. */
    method Pop() returns (x: LegacyItem)
      requires items != []
      modifies this
      ensures x == old(items)[MinIndex(old(items))]
      ensures items == old(items)[..MinIndex(old(items))] + old(items)[MinIndex(old(items)) + 1..]
    {
      var m := MinIndex(items);
      x := items[m];
      items := items[..m] + items[m + 1..];
    }

    method Push(x: LegacyItem)
      modifies this
      ensures items == old(items) + [x]
    {
      items := items + [x];
    }
  }

  /**
   * The inner loop of `start` with the clock standing at `now`: while the head
   * is due, pop it, push it back rescheduled, and hand the copy taken before
   * rescheduling to a worker.
   */
  method Drain(queue: ItemQueue, general: LegacyGeneral, now: int) returns (jobs: seq<Job>)
    requires forall i :: 0 <= i < |queue.items| ==> queue.items[i].interval > 0
    modifies queue
    ensures multiset(Keys(queue.items)) == multiset(Keys(old(queue.items)))
    ensures |queue.items| == |old(queue.items)|
    ensures forall i :: 0 <= i < |queue.items| ==> !Due(queue.items[i], now) && queue.items[i].interval > 0
    ensures multiset(JobItems(jobs)) == multiset(DueOf(old(queue.items), now))
    ensures multiset(queue.items) + multiset(JobItems(jobs)) == multiset(old(queue.items)) + multiset(RescheduleAll(JobItems(jobs), now))
    ensures forall j :: 0 <= j < |jobs| ==> JobFor(jobs[j], general, now)
  {
    jobs := [];
    while true
      invariant Drained(old(queue.items), queue.items, jobs, general, now)
      decreases |DueOf(queue.items, now)|
    {
      var head := queue.Peek();
      if head.None? || head.value.nextTime > now {
        break;
      }
      jobs := DrainHead(queue, general, now, old(queue.items), jobs);
    }
    DrainDone(old(queue.items), queue.items, jobs, general, now);
  }

  /** The state of the drain loop: what the loop has handed out and what the queue holds now, against the queue at the start. */
  predicate Drained(start: seq<LegacyItem>, items: seq<LegacyItem>, jobs: seq<Job>, general: LegacyGeneral, now: int) {
    && Positive(items)
    && multiset(Keys(items)) == multiset(Keys(start))
    && multiset(items) + multiset(JobItems(jobs)) == multiset(start) + multiset(RescheduleAll(JobItems(jobs), now))
    && (forall j :: 0 <= j < |jobs| ==> JobFor(jobs[j], general, now) && Due(jobs[j].item, now) && jobs[j].item.interval > 0)
  }

  /**
   * One iteration: pop the head, push it back due `interval` seconds after
   * `now`, and hand out the copy taken before the update.
   */
  method DrainHead(queue: ItemQueue, general: LegacyGeneral, now: int, ghost start: seq<LegacyItem>, jobs: seq<Job>) returns (more: seq<Job>)
    requires Drained(start, queue.items, jobs, general, now)
    requires queue.Peek().Some? && Due(queue.Peek().value, now)
    modifies queue
    ensures Drained(start, queue.items, more, general, now)
    ensures |DueOf(queue.items, now)| < |DueOf(old(queue.items), now)|
  {
    ghost var before := queue.items;
    ghost var m := MinIndex(before);
    var item := queue.Pop();
    var clone := item;
    item := item.(nextTime := now + item.interval);
    queue.Push(item);
    var shell := if clone.kind.Shell? then general.shell else "";
    more := jobs + [Job(clone, shell, general.output, now)];
    assert clone == before[m] && item == Rescheduled(before[m], now);
    assert queue.items == before[..m] + before[m + 1..] + [Rescheduled(before[m], now)];
    HeadStep(start, before, m, jobs, general, now);
  }

  /** The loop state after the item at `m` has been handed out and put back rescheduled. */
  lemma HeadStep(start: seq<LegacyItem>, before: seq<LegacyItem>, m: nat, jobs: seq<Job>, general: LegacyGeneral, now: int)
    requires Drained(start, before, jobs, general, now)
    requires m < |before| && Due(before[m], now)
    ensures Drained(start, before[..m] + before[m + 1..] + [Rescheduled(before[m], now)],
                    jobs + [Job(before[m], if before[m].kind.Shell? then general.shell else "", general.output, now)], general, now)
    ensures |DueOf(before[..m] + before[m + 1..] + [Rescheduled(before[m], now)], now)| < |DueOf(before, now)|
  {
    QueueStep(before, m, Rescheduled(before[m], now), now);
    DrainStep(start, before, jobs, general, now, before[m], before[..m] + before[m + 1..] + [Rescheduled(before[m], now)],
      jobs + [Job(before[m], if before[m].kind.Shell? then general.shell else "", general.output, now)]);
  }

  /** When the loop stops, nothing in the queue is due, and the loop state says what the drain promises. */
  lemma DrainDone(start: seq<LegacyItem>, items: seq<LegacyItem>, jobs: seq<Job>, general: LegacyGeneral, now: int)
    requires Drained(start, items, jobs, general, now)
    requires forall i :: 0 <= i < |items| ==> !Due(items[i], now)
    ensures |items| == |start|
    ensures multiset(JobItems(jobs)) == multiset(DueOf(start, now))
  {
    DrainAccount(start, items, JobItems(jobs), now);
    SameSize(items, start);
  }

  /** One iteration keeps the loop state: the head goes out as a job and comes back rescheduled. */
  lemma DrainStep(start: seq<LegacyItem>, items: seq<LegacyItem>, jobs: seq<Job>, general: LegacyGeneral, now: int,
                  clone: LegacyItem, after: seq<LegacyItem>, more: seq<Job>)
    requires Drained(start, items, jobs, general, now)
    requires Due(clone, now) && clone.interval > 0
    requires Positive(after)
    requires multiset(after) + multiset{clone} == multiset(items) + multiset{Rescheduled(clone, now)}
    requires multiset(Keys(after)) == multiset(Keys(items))
    requires more == jobs + [Job(clone, if clone.kind.Shell? then general.shell else "", general.output, now)]
    ensures Drained(start, after, more, general, now)
  {
    var job := more[|jobs|];
    JobItemsLast(jobs, job);
    BalanceStep(start, items, JobItems(jobs), after, clone, now);
    JobsStep(jobs, job, general, now);
  }

  /** The balance of the loop state survives trading the head for its rescheduled copy. */
  lemma BalanceStep(start: seq<LegacyItem>, items: seq<LegacyItem>, done: seq<LegacyItem>, after: seq<LegacyItem>, clone: LegacyItem, now: int)
    requires multiset(items) + multiset(done) == multiset(start) + multiset(RescheduleAll(done, now))
    requires multiset(after) + multiset{clone} == multiset(items) + multiset{Rescheduled(clone, now)}
    ensures multiset(after) + multiset(done + [clone]) == multiset(start) + multiset(RescheduleAll(done + [clone], now))
  {
    var later := Rescheduled(clone, now);
    RescheduleLast(done, clone, now);
    assert multiset(done + [clone]) == multiset(done) + multiset{clone};
    assert multiset(RescheduleAll(done, now) + [later]) == multiset(RescheduleAll(done, now)) + multiset{later};
    MultisetStep(multiset(after), multiset(items), multiset(done), multiset(start), multiset(RescheduleAll(done, now)), clone, later);
  }

  /** A job for a due item, added to jobs that all are, gives jobs that all are. */
  lemma JobsStep(jobs: seq<Job>, job: Job, general: LegacyGeneral, now: int)
    requires forall j :: 0 <= j < |jobs| ==> JobFor(jobs[j], general, now) && Due(jobs[j].item, now) && jobs[j].item.interval > 0
    requires JobFor(job, general, now) && Due(job.item, now) && job.item.interval > 0
    ensures forall j :: 0 <= j < |jobs + [job]| ==> JobFor((jobs + [job])[j], general, now) && Due((jobs + [job])[j].item, now) && (jobs + [job])[j].item.interval > 0
  {
    forall j | 0 <= j < |jobs + [job]|
      ensures JobFor((jobs + [job])[j], general, now) && Due((jobs + [job])[j].item, now) && (jobs + [job])[j].item.interval > 0
    {
      if j < |jobs| {
        assert (jobs + [job])[j] == jobs[j];
      }
    }
  }

  /** Popping the head at `m` and pushing `later`, which is not due, keeps the keys and leaves one due item fewer. */
  lemma QueueStep(items: seq<LegacyItem>, m: nat, later: LegacyItem, now: int)
    requires Positive(items) && m < |items| && Due(items[m], now)
    requires later == Rescheduled(items[m], now) && items[m].interval > 0
    ensures var after := items[..m] + items[m + 1..] + [later];
      && Positive(after)
      && multiset(after) + multiset{items[m]} == multiset(items) + multiset{later}
      && multiset(Keys(after)) == multiset(Keys(items))
      && |DueOf(after, now)| < |DueOf(items, now)|
  {
    var rest := items[..m] + items[m + 1..];
    RemoveAt(items, m, now);
    EnqueueLast(rest, later, now);
    PositiveAfter(items, m, later);
  }

  predicate Positive(s: seq<LegacyItem>) {
    forall i :: 0 <= i < |s| ==> s[i].interval > 0
  }

  lemma PositiveAfter(items: seq<LegacyItem>, m: nat, later: LegacyItem)
    requires Positive(items) && m < |items| && later.interval > 0
    ensures Positive(items[..m] + items[m + 1..] + [later])
  {
    var after := items[..m] + items[m + 1..] + [later];
    forall i | 0 <= i < |after|
      ensures after[i].interval > 0
    {
      if i < m {
        assert after[i] == items[i];
      } else if i < |after| - 1 {
        assert after[i] == items[i + 1];
      }
    }
  }

  /** Trading `x` for `y` in the queue while `x` joins the handed-out side and `y` the rescheduled side keeps the balance. */
  lemma MultisetStep<T>(after: multiset<T>, items: multiset<T>, done: multiset<T>, start: multiset<T>, later: multiset<T>, x: T, y: T)
    requires after + multiset{x} == items + multiset{y}
    requires items + done == start + later
    ensures after + (done + multiset{x}) == start + (later + multiset{y})
  {
    forall z
      ensures (after + (done + multiset{x}))[z] == (start + (later + multiset{y}))[z]
    {
      assert (after + multiset{x})[z] == (items + multiset{y})[z];
      assert (items + done)[z] == (start + later)[z];
    }
  }

  /** Queues with the same keys, counted with multiplicity, have the same length. */
  lemma SameSize(a: seq<LegacyItem>, b: seq<LegacyItem>)
    requires multiset(Keys(a)) == multiset(Keys(b))
    ensures |a| == |b|
  {
    assert |multiset(Keys(a))| == |Keys(a)|;
    assert |multiset(Keys(b))| == |Keys(b)|;
  }

  lemma EnqueueLast(s: seq<LegacyItem>, x: LegacyItem, now: int)
    requires !Due(x, now)
    ensures multiset(Keys(s + [x])) == multiset(Keys(s)) + multiset{x.key}
    ensures |DueOf(s + [x], now)| == |DueOf(s, now)|
  {
    KeysConcat(s, [x]);
    DueOfConcat(s, [x], now);
  }

  lemma JobItemsLast(jobs: seq<Job>, j: Job)
    ensures JobItems(jobs + [j]) == JobItems(jobs) + [j.item]
  {
    assert (jobs + [j])[..|jobs|] == jobs;
  }

  lemma RescheduleLast(s: seq<LegacyItem>, x: LegacyItem, now: int)
    ensures RescheduleAll(s + [x], now) == RescheduleAll(s, now) + [Rescheduled(x, now)]
  {
    assert (s + [x])[..|s|] == s;
  }

  /**
   * Once nothing left in the queue is due, the items handed out are exactly
   * the items that were due at the start, counted with multiplicity.
   */
  lemma DrainAccount(start: seq<LegacyItem>, items: seq<LegacyItem>, popped: seq<LegacyItem>, now: int)
    requires multiset(items) + multiset(popped) == multiset(start) + multiset(RescheduleAll(popped, now))
    requires forall i :: 0 <= i < |items| ==> !Due(items[i], now)
    requires forall i :: 0 <= i < |popped| ==> Due(popped[i], now) && popped[i].interval > 0
    ensures multiset(popped) == multiset(DueOf(start, now))
  {
    var later := RescheduleAll(popped, now);
    forall x
      ensures multiset(popped)[x] == multiset(DueOf(start, now))[x]
    {
      DueOfCount(start, now, x);
      assert (multiset(items) + multiset(popped))[x] == (multiset(start) + multiset(later))[x];
      if Due(x, now) {
        assert forall i :: 0 <= i < |items| ==> items[i] != x;
        assert forall i :: 0 <= i < |later| ==> later[i] != x;
        assert x !in items && x !in later;
      } else {
        assert forall i :: 0 <= i < |popped| ==> popped[i] != x;
        assert x !in popped;
      }
    }
  }

  // ------------------------------------------------------ sleeping

  /** The wrap-around of a two's-complement value reinterpreted as `u64`. */
  const U64Modulus: int := 0x1_0000_0000_0000_0000

  /** The sleep length as written: the head's due time minus a fresh clock reading, cast to `u64`. */
  function SleepAsWritten(nextTime: int, now: int): (r: nat)
    ensures r < U64Modulus
    ensures 0 <= nextTime - now < U64Modulus ==> r == nextTime - now
    ensures -U64Modulus <= nextTime - now < 0 ==> r == U64Modulus + (nextTime - now)
  {
    (nextTime - now) % U64Modulus
  }

  /**
   * The drain's last reading found the head due at 10 not yet due (the clock
   * read at most 9), and the fresh reading for the sleep gives 11: a head due
   * strictly before that reading makes the scheduler sleep for about 585
   * billion years.
   */
  lemma SleepWraps()
    ensures SleepAsWritten(10, 11) == U64Modulus - 1
  {
  }

  /** The intended sleep: until the head is due, or not at all when it already is. */
  function SleepCorrected(nextTime: int, now: int): (r: nat)
    ensures now + r >= nextTime
    ensures nextTime >= now ==> now + r == nextTime
    ensures nextTime <= now ==> r == 0
  {
    if nextTime > now then nextTime - now else 0
  }

  /** Both agree whenever the head is not yet due and less than 2^64 seconds away. */
  lemma SleepAgrees(nextTime: int, now: int)
    requires now <= nextTime < now + U64Modulus
    ensures SleepAsWritten(nextTime, now) == SleepCorrected(nextTime, now)
  {
  }

  /** The earliest due time in the queue is `t`. */
  predicate EarliestAt(items: seq<LegacyItem>, t: int) {
    && (exists i :: 0 <= i < |items| && items[i].nextTime == t)
    && (forall j :: 0 <= j < |items| ==> t <= items[j].nextTime)
  }

  /**
   * One round of the outer loop: drain at `now`, then, with the clock reading
   * `wake`, sleep for the cast difference between the earliest due time and
   * `wake`.
   */
  method Round(queue: ItemQueue, general: LegacyGeneral, now: int, wake: int) returns (jobs: seq<Job>, sleep: Option<nat>)
    requires forall i :: 0 <= i < |queue.items| ==> queue.items[i].interval > 0
    modifies queue
    ensures multiset(Keys(queue.items)) == multiset(Keys(old(queue.items)))
    ensures |queue.items| == |old(queue.items)|
    ensures forall i :: 0 <= i < |queue.items| ==> !Due(queue.items[i], now) && queue.items[i].interval > 0
    ensures multiset(JobItems(jobs)) == multiset(DueOf(old(queue.items), now))
    ensures multiset(queue.items) + multiset(JobItems(jobs)) == multiset(old(queue.items)) + multiset(RescheduleAll(JobItems(jobs), now))
    ensures forall j :: 0 <= j < |jobs| ==> JobFor(jobs[j], general, now)
    ensures sleep.None? <==> queue.items == []
    ensures sleep.Some? ==> exists t :: EarliestAt(queue.items, t) && sleep.value == SleepAsWritten(t, wake)
    ensures forall t :: EarliestAt(queue.items, t) && wake <= t < wake + U64Modulus ==> sleep.Some? && wake + sleep.value == t
  {
    jobs := Drain(queue, general, now);
    sleep := SleepLength(queue, wake);
  }

  /**
   * How long to sleep, with the clock reading `wake`: the earliest due time
   * minus `wake`, cast to `u64`. When that item is not yet due, this is the
   * time until it is; when it already is, the difference wraps around.
   */
  method SleepLength(queue: ItemQueue, wake: int) returns (sleep: Option<nat>)
    ensures sleep.None? <==> queue.items == []
    ensures sleep.Some? ==> exists t :: EarliestAt(queue.items, t) && sleep.value == SleepAsWritten(t, wake)
    ensures forall t :: EarliestAt(queue.items, t) && wake <= t < wake + U64Modulus ==> sleep.Some? && wake + sleep.value == t
  {
    var head := queue.Peek();
    if head.None? {
      sleep := None;
    } else {
      var t := head.value.nextTime;
      sleep := Some(SleepAsWritten(t, wake));
      var m := MinIndex(queue.items);
      assert head.value == queue.items[m];
      assert EarliestAt(queue.items, t);
      forall u | EarliestAt(queue.items, u) && wake <= u < wake + U64Modulus
        ensures wake + sleep.value == u
      {
        EarliestUnique(queue.items, t, u);
        SleepAgrees(u, wake);
      }
    }
  }

  /** The earliest due time is unique. */
  lemma EarliestUnique(items: seq<LegacyItem>, t: int, u: int)
    requires EarliestAt(items, t) && EarliestAt(items, u)
    ensures t == u
  {
    var i :| 0 <= i < |items| && items[i].nextTime == t;
    var k :| 0 <= k < |items| && items[k].nextTime == u;
  }

  // ------------------------------------------------------ what a worker does

  /** A worker's program: a script runs under the shell the job carries. */
  function JobInvocation(job: Job): Item.Invocation {
    Item.InvocationOf(job.item.kind, job.shell, job.item.env)
  }

  /** A job handed out by the drain runs a script under the configured shell, and a command as given. */
  lemma JobRunsConfiguredShell(job: Job, general: LegacyGeneral, now: int)
    requires JobFor(job, general, now)
    ensures job.item.kind.Shell? ==> JobInvocation(job) == Item.Run(general.shell, ["-c", job.item.kind.script], job.item.env)
    ensures job.item.kind.Command? ==> JobInvocation(job) == Item.Run(job.item.kind.path, job.item.kind.args, job.item.env)
    ensures job.item.kind.File? ==> JobInvocation(job) == Item.ReadFile(job.item.kind.path)
  {
  }

  /** An append a worker makes: the file and the text. */
  datatype JobAppend = JobAppend(path: string, text: string)

  /** The line: the clock at the drain, a space, the text as produced, with no line break added. */
  function JobLine(startedAt: int, result: string): string {
    IntToString(startedAt) + " " + result
  }

  /** A worker that produced its text appends it under the output directory; one whose source failed writes nothing. */
  function JobOutput(job: Job, outcome: Result<string, string>): (r: Option<JobAppend>)
    ensures r.Some? <==> outcome.Success?
  {
    match outcome
    case Success(result) => Some(JobAppend(PathPush(job.outputFolder, job.item.key), JobLine(job.startedAt, result)))
    case Failure(_) => None
  }

  /** The line splits back at its first space into the time and the text. */
  lemma JobLineReadsBack(startedAt: int, result: string)
    ensures IndexOf(JobLine(startedAt, result), ' ').Some?
    ensures var k := IndexOf(JobLine(startedAt, result), ' ').value;
      JobLine(startedAt, result)[..k] == IntToString(startedAt) && JobLine(startedAt, result)[k + 1..] == result
  {
    var t := IntToString(startedAt);
    var digits := NatToString(if startedAt < 0 then -startedAt else startedAt);
    assert forall i :: 0 <= i < |digits| ==> digits[i] != ' ';
    if startedAt < 0 {
      assert forall i :: 1 <= i < |t| ==> t[i] == digits[i - 1];
    }
    assert forall i :: 0 <= i < |t| ==> t[i] != ' ';
    IndexOfAfter(t, ' ', result);
    assert JobLine(startedAt, result) == t + [' '] + result;
  }

  /** Nothing is added after the text: the line ends as the text does. */
  lemma JobLineNoBreak(startedAt: int, result: string)
    requires result != []
    ensures JobLine(startedAt, result)[|JobLine(startedAt, result)| - 1] == result[|result| - 1]
  {
  }

  /** A relative key names a file under the output directory, separators and all: `a/b` goes into the sub-directory `a`. */
  lemma JobPathUnderFolder(job: Job)
    requires !Absolute(job.item.key)
    ensures var p := PathPush(job.outputFolder, job.item.key);
      job.outputFolder <= p && p[|p| - |job.item.key|..] == job.item.key
  {
  }

  /** An absolute key ignores the output directory altogether. */
  lemma AbsoluteKeyEscapes(folder: string, key: string)
    requires Absolute(key)
    ensures PathPush(folder, key) == key
  {
  }

  /** Different relative keys give different files. */
  lemma JobFilesDistinct(folder: string, a: string, b: string)
    requires !Absolute(a) && !Absolute(b) && a != b
    ensures PathPush(folder, a) != PathPush(folder, b)
  {
    PathPushInjective(folder, a, b);
  }
}
