/**
 * The scheduler: validation of a task's three attributes, the
 * stack-like list the tasks are read into, the heap sort by release time
 * and the earliest-deadline-first simulation that assigns start times on a
 * given number of cores.
 */
module TaskScheduler {
  import opened Wrappers
  import opened Sequences
  import opened MinHeaps

  // ---------------------------------------------------------------------
  // Attribute validation

  predicate IsLetter(c: char) {
    'A' <= c <= 'Z' || 'a' <= c <= 'z'
  }

  predicate IsDigit(c: char) {
    '0' <= c <= '9'
  }

  /** The name pattern: a letter followed by letters and digits. */
  predicate IsName(s: string) {
    |s| >= 1 && IsLetter(s[0]) && forall k :: 1 <= k < |s| ==> IsLetter(s[k]) || IsDigit(s[k])
  }

  /** The number pattern: one or more decimal digits. */
  predicate IsDigits(s: string) {
    |s| >= 1 && forall k :: 0 <= k < |s| ==> IsDigit(s[k])
  }

  /** The value of a string of decimal digits (without the 32-bit limit of the source's parser). */
  function DigitsValue(s: string): nat
    requires forall k :: 0 <= k < |s| ==> IsDigit(s[k])
    decreases |s|
  {
    if |s| == 0 then 0
    else
      assert IsDigit(s[|s| - 1]);
      10 * DigitsValue(s[..|s| - 1]) + (s[|s| - 1] as int - '0' as int)
  }

  /** The decimal digit for 0 <= d < 10. */
  function DigitChar(d: int): (c: char)
    requires 0 <= d < 10
    ensures IsDigit(c) && c as int - '0' as int == d
  {
    ('0' as int + d) as char
  }

  /** The decimal numeral of n, without leading zeros. */
  function Decimal(n: nat): (r: string)
    ensures IsDigits(r)
    decreases n
  {
    if n < 10 then [DigitChar(n)] else Decimal(n / 10) + [DigitChar(n % 10)]
  }

  /** Reading back a numeral gives its number. */
  lemma {:induction false} DecimalRoundTrip(n: nat)
    ensures DigitsValue(Decimal(n)) == n
    decreases n
  {
    if n >= 10 {
      DecimalRoundTrip(n / 10);
      var r := Decimal(n);
      assert r[..|r| - 1] == Decimal(n / 10);
    } else {
      assert Decimal(n)[..0] == [];
    }
  }

  /**
   * validAttributes: a node for a task (name, release, deadline) when the
   * name matches the name pattern, both numbers are digit strings, the
   * deadline is at least 1 and the release comes before the deadline; None
   * otherwise. Its key is -1 and the start time of its task 0.
   */
  function ValidAttributes(a: seq<string>): (r: Option<Node>)
    requires |a| >= 3
    ensures r.Some? <==>
              && IsName(a[0]) && IsDigits(a[1]) && IsDigits(a[2])
              && 1 <= DigitsValue(a[2]) && DigitsValue(a[1]) < DigitsValue(a[2])
    ensures r.Some? ==> r.value == Node(-1, Task(a[0], DigitsValue(a[1]), DigitsValue(a[2]), 0))
  {
    if !IsName(a[0]) then None
    else if !IsDigits(a[1]) then None
    else
      var release := DigitsValue(a[1]);
      if !IsDigits(a[2]) then None
      else
        var deadline := DigitsValue(a[2]);
        if deadline < 1 then None
        else if release >= deadline then None
        else Some(Node(-1, Task(a[0], release, deadline, 0)))
  }

  /** A task written out as name, release and deadline numerals is read back as itself. */
  lemma ValidAttributesRoundTrip(name: string, release: nat, deadline: nat)
    requires IsName(name) && release < deadline
    ensures ValidAttributes([name, Decimal(release), Decimal(deadline)])
            == Some(Node(-1, Task(name, release, deadline, 0)))
  {
    DecimalRoundTrip(release);
    DecimalRoundTrip(deadline);
  }

  // ---------------------------------------------------------------------
  // The list the tasks are read into

  /**
   * The source's singly linked list, modelled by the sequence of its nodes
   * from the head; add pushes at the head.
   */
  class LinkedList {
    var elements: seq<Node>
    var size: int

    ghost predicate Valid()
      reads this
    {
      size == |elements|
    }

    constructor ()
      ensures elements == [] && size == 0 && Valid()
    {
      elements := [];
      size := 0;
    }

    /** add: the new node becomes the head and the old list follows it. */
    method Add(newNode: Node)
      modifies this
      ensures elements == [newNode] + old(elements)
      ensures size == old(size) + 1
    {
      if elements == [] {
        elements := [newNode];
        size := size + 1;
      } else {
        var prevHead := elements;
        elements := [newNode] + prevHead;
        size := size + 1;
      }
    }
  }

  // ---------------------------------------------------------------------
  // Tasks as heap slots

  function ValueOf(n: Node): Task {
    n.value
  }

  /** What a slot stores (a blank task for an empty one, which no caller reads). */
  function TaskOf(o: Option<Node>): Task {
    if o.Some? then o.value.value else Task("", 0, 0, 0)
  }

  /** The slot of a task keyed by its release time, as the sort inserts it. */
  function ReleaseSlot(t: Task): Option<Node> {
    Some(Node(t.release, t))
  }

  /** The slot of a task keyed by its deadline, as the scheduler inserts it. */
  function DeadlineSlot(t: Task): Option<Node> {
    Some(Node(t.deadline, t))
  }

  /** A task with its start time cleared. */
  function Unstarted(t: Task): Task {
    t.(startTime := 0)
  }

  lemma {:induction false} ReleaseSlotsBack(ts: seq<Task>)
    ensures Map(TaskOf, Map(ReleaseSlot, ts)) == ts
    decreases |ts|
  {
    if |ts| > 0 {
      ReleaseSlotsBack(ts[..|ts| - 1]);
    }
  }

  lemma {:induction false} DeadlineSlotsBack(ts: seq<Task>)
    ensures Map(TaskOf, Map(DeadlineSlot, ts)) == ts
    decreases |ts|
  {
    if |ts| > 0 {
      DeadlineSlotsBack(ts[..|ts| - 1]);
    }
  }

  /** Tasks whose release-keyed slots are a permutation of each other are a permutation of each other. */
  lemma ReleaseSlotsPermutation(a: seq<Task>, b: seq<Task>)
    requires multiset(Map(ReleaseSlot, a)) == multiset(Map(ReleaseSlot, b))
    ensures multiset(a) == multiset(b)
  {
    MapMultiset(TaskOf, Map(ReleaseSlot, a), Map(ReleaseSlot, b));
    ReleaseSlotsBack(a);
    ReleaseSlotsBack(b);
  }

  /** Tasks whose deadline-keyed slots are a permutation of each other are a permutation of each other. */
  lemma DeadlineSlotsPermutation(a: seq<Task>, b: seq<Task>)
    requires multiset(Map(DeadlineSlot, a)) == multiset(Map(DeadlineSlot, b))
    ensures multiset(a) == multiset(b)
  {
    MapMultiset(TaskOf, Map(DeadlineSlot, a), Map(DeadlineSlot, b));
    DeadlineSlotsBack(a);
    DeadlineSlotsBack(b);
  }

  // ---------------------------------------------------------------------
  // Sorting by release time

  ghost predicate SortedByRelease(ts: seq<Task>) {
    forall j, k :: 0 <= j < k < |ts| ==> ts[j].release <= ts[k].release
  }

  /**
   * While the sort drains the heap: the tasks written so far (done) and the
   * slots still pending are together the release slots of all tasks, done
   * is sorted and no pending release is smaller than the last one written.
   */
  ghost predicate Draining(all: seq<Task>, done: seq<Task>, pending: multiset<Option<Node>>) {
    && multiset(Map(ReleaseSlot, done)) + pending == multiset(Map(ReleaseSlot, all))
    && SortedByRelease(done)
    && ReleaseKeyed(pending)
    && (|done| > 0 ==> KeysAtLeast(pending, done[|done| - 1].release))
  }

  /** Every slot in m holds a node keyed by its task's release time. */
  ghost predicate ReleaseKeyed(m: multiset<Option<Node>>) {
    forall o {:trigger Listed(o)} :: o in m ==> o.Some? && o.value.key == o.value.value.release
  }

  /** Removing one slot keeps a lower bound on the keys. */
  lemma KeysAtLeastLess(m: multiset<Option<Node>>, c: Option<Node>, k: int)
    requires KeysAtLeast(m, k)
    ensures KeysAtLeast(m - multiset{c}, k)
  {
    forall o | o in m - multiset{c} ensures k <= Key(o) {
      assert Listed(o);
    }
  }

  /** Before the drain, every pending slot is the release slot of its task. */
  lemma DrainStart(all: seq<Task>, pending: multiset<Option<Node>>)
    requires pending == multiset(Map(ReleaseSlot, all))
    ensures Draining(all, [], pending)
  {
    forall o | o in pending ensures o.Some? && o.value.key == o.value.value.release {
      var k := MapIndex(ReleaseSlot, all, o);
    }
    assert ReleaseKeyed(pending);
  }

  /** After removing c from rest (or finding the heap empty), the heap and c make up rest again. */
  lemma Refill(rest: multiset<Option<Node>>, contents: multiset<Option<Node>>, c: Option<Node>)
    requires c.Some? ==> c in rest && contents == rest - multiset{c}
    requires c.None? ==> contents == rest
    ensures contents + (if c.Some? then multiset{c} else multiset{}) == rest
  {
  }

  /** Appending a task whose release is not smaller than the last keeps tasks sorted. */
  lemma SortedSnoc(done: seq<Task>, x: Task)
    requires SortedByRelease(done) && (|done| > 0 ==> done[|done| - 1].release <= x.release)
    ensures SortedByRelease(done + [x])
  {
  }

  /** Moving slot c of a task from the pending slots to the written tasks keeps their union. */
  lemma SlotsMove(all: seq<Task>, done: seq<Task>, rest: multiset<Option<Node>>, c: Option<Node>, x: Task)
    requires multiset(Map(ReleaseSlot, done)) + (rest + multiset{c}) == multiset(Map(ReleaseSlot, all))
    requires c == ReleaseSlot(x)
    ensures multiset(Map(ReleaseSlot, done + [x])) + rest == multiset(Map(ReleaseSlot, all))
  {
    MapSnoc(ReleaseSlot, done + [x], |done|);
    assert (done + [x])[..|done|] == done && (done + [x])[..|done| + 1] == done + [x];
  }

  /** Writing out the pending slot c with a minimum key keeps the drain going. */
  lemma DrainStep(all: seq<Task>, done: seq<Task>, rest: multiset<Option<Node>>, c: Option<Node>)
    requires Draining(all, done, rest + multiset{c})
    requires KeysAtLeast(rest, Key(c))
    ensures Draining(all, done + [TaskOf(c)], rest)
  {
    var x := TaskOf(c);
    assert c in rest + multiset{c} && Listed(c);
    forall o | o in rest ensures o.Some? && o.value.key == o.value.value.release {
      assert o in rest + multiset{c} && Listed(o);
    }
    assert c == ReleaseSlot(x);
    SlotsMove(all, done, rest, c, x);
    SortedSnoc(done, x);
  }

  /** Removing a minimum slot c from the pending slots and writing out its task keeps the drain going. */
  lemma DrainMove(all: seq<Task>, done: seq<Task>, rest: multiset<Option<Node>>, contents: multiset<Option<Node>>,
                  c: Option<Node>)
    requires c.Some? && c in rest && contents == rest - multiset{c}
    requires KeysAtLeast(rest, Key(c)) && Draining(all, done, rest)
    ensures Draining(all, done + [TaskOf(c)], contents)
  {
    Refill(rest, contents, c);
    KeysAtLeastLess(rest, c, Key(c));
    DrainStep(all, done, contents, c);
  }

  /** Writes x after the i tasks already written. */
  method Put(r: array<Task>, i: int, x: Task, ghost done: seq<Task>)
    requires 0 <= i < r.Length && r[..i] == done
    modifies r
    ensures r[..i + 1] == done + [x]
  {
    ghost var before := r[..];
    r[i] := x;
    WriteStep(before, r[..], done, i, x);
  }

  /** Writing x at index i of tasks whose first i are done makes the first i + 1 equal to done + [x]. */
  lemma WriteStep(before: seq<Task>, after: seq<Task>, done: seq<Task>, i: int, x: Task)
    requires 0 <= i < |before| && before[..i] == done && after == before[i := x]
    ensures after[..i + 1] == done + [x]
  {
    assert after[..i + 1] == after[..i] + [x];
  }

  /**
   * The first loop of sortTaskByRelease: walks the list from its head,
   * keys every node by its task's release and inserts it into the heap.
   */
  method FillFromList(t: LinkedList, releaseHeap: MinHeap)
    requires t.Valid() && releaseHeap.Valid() && releaseHeap.entries == 0 && releaseHeap.size == t.size + 1
    modifies releaseHeap, releaseHeap.heap
    ensures releaseHeap.Valid() && releaseHeap.entries == t.size
    ensures releaseHeap.Contents() == multiset(Map(ReleaseSlot, Map(ValueOf, t.elements)))
  {
    ghost var all := Map(ValueOf, t.elements);
    var k := 0;
    while k < |t.elements|
      invariant 0 <= k <= |t.elements|
      invariant releaseHeap.Valid() && releaseHeap.entries == k
      invariant releaseHeap.Contents() == multiset(Map(ReleaseSlot, all[..k]))
    {
      var node := t.elements[k];
      node := node.(key := node.value.release);
      MapAt(ValueOf, t.elements, k);
      MapSnoc(ReleaseSlot, all, k);
      releaseHeap.Insert(node);
      k := k + 1;
    }
    assert all[..k] == all;
  }

  /**
   * One turn of the second loop of sortTaskByRelease: removes the minimum
   * of the heap and, when there was one, writes its task to r[i].
   */
  method RemoveInto(releaseHeap: MinHeap, r: array<Task>, i: int, ghost all: seq<Task>, ghost done: seq<Task>)
    returns (ctask: Option<Node>, ghost done': seq<Task>)
    requires releaseHeap.Valid() && releaseHeap.heap.Length >= 2
    requires 0 <= i && i + releaseHeap.entries == r.Length && r[..i] == done
    requires Draining(all, done, releaseHeap.Contents())
    modifies releaseHeap, releaseHeap.heap, r
    ensures releaseHeap.Valid()
    ensures ctask.None? ==> releaseHeap.entries == 0 && done' == done && r[..i] == done'
    ensures ctask.Some? ==> releaseHeap.entries == old(releaseHeap.entries) - 1 && r[..i + 1] == done'
    ensures Draining(all, done', releaseHeap.Contents())
  {
    ghost var rest := releaseHeap.Contents();
    ctask := releaseHeap.RemoveMin();
    if ctask.None? {
      return ctask, done;
    }
    done' := done + [TaskOf(ctask)];
    DrainMove(all, done, rest, releaseHeap.Contents(), ctask);
    assert r as object != releaseHeap.heap && r as object != releaseHeap;
    Put(r, i, ctask.value.value, done);
  }

  /**
   * The second loop of sortTaskByRelease: removes the minimum until the
   * heap is empty, writing the tasks into r from the start.
   */
  method DrainInto(releaseHeap: MinHeap, r: array<Task>, ghost all: seq<Task>)
    requires releaseHeap.Valid() && releaseHeap.heap.Length >= 2 && releaseHeap.entries == r.Length
    requires releaseHeap.Contents() == multiset(Map(ReleaseSlot, all))
    modifies releaseHeap, releaseHeap.heap, r
    ensures SortedByRelease(r[..])
    ensures multiset(Map(ReleaseSlot, r[..])) == multiset(Map(ReleaseSlot, all))
  {
    var i := 0;
    ghost var done: seq<Task> := [];
    DrainStart(all, releaseHeap.Contents());
    while true
      invariant releaseHeap.Valid() && releaseHeap.heap.Length >= 2
      invariant 0 <= i && i + releaseHeap.entries == r.Length && r[..i] == done
      invariant Draining(all, done, releaseHeap.Contents())
      decreases releaseHeap.entries
    {
      var ctask;
      ctask, done := RemoveInto(releaseHeap, r, i, all, done);
      if ctask.None? {
        break;
      }
      i := i + 1;
    }
    assert r[..] == r[..i];
  }

  /**
   * sortTaskByRelease: inserts every node of the list, keyed by its task's
   * release, into a heap sized to the list, then removes the minimum until
   * the heap is empty, writing the tasks into r. The source reads slot 1 of
   * the heap even when it is empty, so the list must not be empty.
   */
  method SortTaskByRelease(t: LinkedList, r: array<Task>)
    requires t.Valid() && t.size >= 1 && r.Length == t.size
    modifies r
    ensures SortedByRelease(r[..])
    ensures multiset(r[..]) == multiset(Map(ValueOf, t.elements))
  {
    var taskNum := t.size;
    var releaseHeap := new MinHeap(taskNum);
    FillFromList(t, releaseHeap);
    DrainInto(releaseHeap, r, Map(ValueOf, t.elements));
    ReleaseSlotsPermutation(r[..], Map(ValueOf, t.elements));
  }

  // ---------------------------------------------------------------------
  // Earliest-deadline-first scheduling

  /**
   * A valid schedule of tasks on the given number of cores: a permutation
   * of the tasks (start times aside), each started no earlier than its
   * release and before its deadline, in non-decreasing order of start time,
   * and no more than cores of them starting at the same time.
   */
  ghost predicate ValidSchedule(s: seq<Task>, tasks: seq<Task>, cores: int) {
    && |s| == |tasks|
    && multiset(Map(Unstarted, s)) == multiset(Map(Unstarted, tasks))
    && (forall k :: 0 <= k < |s| ==> s[k].release <= s[k].startTime < s[k].deadline)
    && (forall j, k :: 0 <= j < k < |s| ==> s[j].startTime <= s[k].startTime)
    && (forall j, k :: 0 <= j < k < |s| && s[j].startTime == s[k].startTime ==> k - j < cores)
  }

  /**
   * The first n entries of s are the tasks picked so far, in order, each
   * with a start time; the ones from index tick on started at the current
   * time, which is after the start times of the others.
   */
  ghost predicate Started(s: seq<Task>, n: int, picked: seq<Task>, time: int, tick: int, cores: int) {
    && 0 <= tick <= n == |picked| <= |s|
    && n - tick <= cores
    && (forall k :: 0 <= k < n ==> s[k] == picked[k].(startTime := s[k].startTime))
    && (forall k :: 0 <= k < n ==> s[k].release <= s[k].startTime < s[k].deadline)
    && (forall k :: 0 <= k < tick ==> s[k].startTime < time)
    && (forall k :: tick <= k < n ==> s[k].startTime == time)
    && (forall j, k :: 0 <= j < k < n ==> s[j].startTime <= s[k].startTime)
    && (forall j, k :: 0 <= j < k < n && s[j].startTime == s[k].startTime ==> k - j < cores)
  }

  /**
   * The first i tasks have been admitted: the picked ones and the pending
   * deadline slots are together their deadline slots, and every pending
   * task has been released by the current time.
   */
  ghost predicate Admitted(tasks: seq<Task>, i: int, picked: seq<Task>, pending: multiset<Option<Node>>, time: int)
    requires 0 <= i <= |tasks|
  {
    && multiset(Map(DeadlineSlot, picked)) + pending == multiset(Map(DeadlineSlot, tasks[..i]))
    && (forall o :: o in pending ==> o == DeadlineSlot(TaskOf(o)) && TaskOf(o).release <= time)
  }

  /** Admitting task i, released at the current time, into the deadline heap. */
  lemma AdmitStep(tasks: seq<Task>, i: int, picked: seq<Task>, pending: multiset<Option<Node>>, time: int)
    requires 0 <= i < |tasks| && tasks[i].release == time && Admitted(tasks, i, picked, pending, time)
    ensures Admitted(tasks, i + 1, picked, pending + multiset{DeadlineSlot(tasks[i])}, time)
  {
    MapSnoc(DeadlineSlot, tasks, i);
  }

  /** Picking the pending slot m. */
  lemma PickStep(tasks: seq<Task>, i: int, picked: seq<Task>, pending: multiset<Option<Node>>, time: int, m: Option<Node>)
    requires 0 <= i <= |tasks| && Admitted(tasks, i, picked, pending, time) && m in pending
    ensures m == DeadlineSlot(TaskOf(m)) && TaskOf(m).release <= time
    ensures Admitted(tasks, i, picked + [TaskOf(m)], pending - multiset{m}, time)
  {
    MapSnoc(DeadlineSlot, picked + [TaskOf(m)], |picked|);
    assert (picked + [TaskOf(m)])[..|picked|] == picked;
  }

  /** Starting task t at the current time on a free core. */
  lemma StartStep(s: seq<Task>, n: int, picked: seq<Task>, time: int, tick: int, cores: int, t: Task)
    requires Started(s, n, picked, time, tick, cores) && n < |s| && n - tick < cores
    requires t.release <= time < t.deadline
    ensures Started(s[n := t.(startTime := time)], n + 1, picked + [t], time, tick, cores)
  {
  }

  /** Moving on to the next time step. */
  lemma TickStep(s: seq<Task>, n: int, picked: seq<Task>, time: int, tick: int, cores: int)
    requires Started(s, n, picked, time, tick, cores)
    ensures Started(s, n, picked, time + 1, n, cores)
  {
  }

  /** Once every task is admitted and picked, the start times form a valid schedule. */
  lemma Finished(s: seq<Task>, tasks: seq<Task>, picked: seq<Task>, time: int, tick: int, cores: int)
    requires Started(s, |s|, picked, time, tick, cores) && |s| == |tasks|
    requires Admitted(tasks, |tasks|, picked, multiset{}, time)
    ensures ValidSchedule(s, tasks, cores)
  {
    assert tasks[..|tasks|] == tasks;
    DeadlineSlotsPermutation(picked, tasks);
    MapMultiset(Unstarted, picked, tasks);
    UnstartedAgree(s, picked);
  }

  /** Tasks that differ only in their start times agree once the start times are cleared. */
  lemma UnstartedAgree(s: seq<Task>, picked: seq<Task>)
    requires |s| == |picked|
    requires forall k :: 0 <= k < |s| ==> s[k] == picked[k].(startTime := s[k].startTime)
    ensures Map(Unstarted, s) == Map(Unstarted, picked)
  {
    forall k | 0 <= k < |s| ensures Map(Unstarted, s)[k] == Map(Unstarted, picked)[k] {
      MapAt(Unstarted, s, k);
      MapAt(Unstarted, picked, k);
    }
  }

  /** The picked tasks are some of the tasks admitted so far. */
  lemma PickedAreTasks(tasks: seq<Task>, i: int, picked: seq<Task>, pending: multiset<Option<Node>>, time: int)
    requires 0 <= i <= |tasks| && Admitted(tasks, i, picked, pending, time)
    ensures multiset(picked) <= multiset(tasks)
  {
    var done := tasks[..i];
    assert multiset(Map(DeadlineSlot, picked)) <= multiset(Map(DeadlineSlot, done));
    DeadlineSlotsIncluded(picked, done);
    assert tasks == done + tasks[i..];
  }

  /** Tasks whose deadline-keyed slots are among another's slots are among its tasks. */
  lemma DeadlineSlotsIncluded(a: seq<Task>, b: seq<Task>)
    requires multiset(Map(DeadlineSlot, a)) <= multiset(Map(DeadlineSlot, b))
    ensures multiset(a) <= multiset(b)
  {
    MapSubMultiset(TaskOf, Map(DeadlineSlot, a), Map(DeadlineSlot, b));
    DeadlineSlotsBack(a);
    DeadlineSlotsBack(b);
  }

  /**
   * Why the simulation fails at time: failed is one of the tasks, released
   * by time, whose deadline is not after time, and it is none of the n
   * tasks already started in s (counting repeated tasks).
   */
  ghost predicate Expired(s: seq<Task>, n: int, tasks: seq<Task>, failed: Task, time: int) {
    && 0 <= n <= |s|
    && failed in tasks && failed.release <= time && failed.deadline <= time
    && multiset(Map(Unstarted, s[..n])) + multiset{Unstarted(failed)} <= multiset(Map(Unstarted, tasks))
  }

  /** A task picked after the n started ones, all of them among the tasks, is none of the started ones. */
  lemma ExpiredStep(s: seq<Task>, n: int, picked: seq<Task>, tasks: seq<Task>, failed: Task, time: int)
    requires 0 <= n == |picked| <= |s|
    requires forall k :: 0 <= k < n ==> s[k] == picked[k].(startTime := s[k].startTime)
    requires multiset(picked + [failed]) <= multiset(tasks)
    requires failed.release <= time && failed.deadline <= time
    ensures Expired(s, n, tasks, failed, time)
  {
    assert failed in multiset(picked + [failed]);
    UnstartedAgree(s[..n], picked);
    MapSubMultiset(Unstarted, picked + [failed], tasks);
    MapAppend(Unstarted, picked, [failed]);
    assert Map(Unstarted, [failed]) == [Unstarted(failed)];
  }

  /**
   * The first inner loop of createValidSchedule: every task from index i0
   * on that is released at the current time enters the deadline heap,
   * keyed by its deadline. The tasks are sorted by release, so the loop
   * stops at the first task released later.
   */
  method AdmitReleased(tasks: array<Task>, i0: int, time: int, deadlineHeap: MinHeap, ghost picked: seq<Task>)
    returns (i: int)
    requires 0 <= i0 <= tasks.Length && SortedByRelease(tasks[..])
    requires deadlineHeap.Valid() && deadlineHeap.size == tasks.Length + 1
    requires deadlineHeap.entries + |picked| == i0
    requires i0 < tasks.Length ==> tasks[i0].release >= time
    requires Admitted(tasks[..], i0, picked, deadlineHeap.Contents(), time)
    modifies deadlineHeap, deadlineHeap.heap
    ensures i0 <= i <= tasks.Length
    ensures deadlineHeap.Valid() && deadlineHeap.entries + |picked| == i
    ensures i < tasks.Length ==> tasks[i].release > time
    ensures Admitted(tasks[..], i, picked, deadlineHeap.Contents(), time)
  {
    i := i0;
    while i < tasks.Length && tasks[i].release == time
      invariant i0 <= i <= tasks.Length
      invariant deadlineHeap.Valid() && deadlineHeap.entries + |picked| == i
      invariant i < tasks.Length ==> tasks[i].release >= time
      invariant Admitted(tasks[..], i, picked, deadlineHeap.Contents(), time)
    {
      assert tasks as object != deadlineHeap.heap && tasks as object != deadlineHeap;
      var cNode := Node(tasks[i].deadline, tasks[i]);
      AdmitStep(tasks[..], i, picked, deadlineHeap.Contents(), time);
      deadlineHeap.Insert(cNode);
      i := i + 1;
    }
  }

  /**
   * One turn of the second inner loop of createValidSchedule: removes the
   * task with the earliest deadline from the heap and, unless its deadline
   * has passed, starts it at the current time in entry numTasks of s.
   */
  method StartNext(s: array<Task>, numTasks: int, time: int, deadlineHeap: MinHeap,
                   ghost tasks: seq<Task>, ghost i: int, ghost picked: seq<Task>, ghost tick: int, ghost cores: int)
    returns (ok: bool, ghost picked': seq<Task>, ghost failed: Task)
    requires 0 <= i <= |tasks| == s.Length
    requires deadlineHeap.Valid() && deadlineHeap.entries > 0 && deadlineHeap.entries + numTasks == i
    requires Admitted(tasks, i, picked, deadlineHeap.Contents(), time)
    requires Started(s[..], numTasks, picked, time, tick, cores) && numTasks - tick < cores
    modifies s, deadlineHeap, deadlineHeap.heap
    ensures deadlineHeap.Valid() && deadlineHeap.entries == old(deadlineHeap.entries) - 1
    ensures ok ==> && Admitted(tasks, i, picked', deadlineHeap.Contents(), time)
                   && Started(s[..], numTasks + 1, picked', time, tick, cores)
    ensures !ok ==> && DeadlineSlot(failed) in old(deadlineHeap.Contents())
                    && KeysAtLeast(old(deadlineHeap.Contents()), failed.deadline)
                    && Expired(s[..], numTasks, tasks, failed, time)
  {
    ghost var pending := deadlineHeap.Contents();
    var m := deadlineHeap.RemoveMin();
    var cTask := m.value.value;
    PickStep(tasks, i, picked, pending, time, m);
    picked' := picked + [cTask];
    failed := cTask;
    if cTask.deadline <= time {
      PickedAreTasks(tasks, i, picked', pending - multiset{m}, time);
      ExpiredStep(s[..], numTasks, picked, tasks, failed, time);
      return false, picked', failed;
    }
    ghost var before := s[..];
    assert s as object != deadlineHeap.heap && s as object != deadlineHeap;
    s[numTasks] := cTask.(startTime := time);
    StartStep(before, numTasks, picked, time, tick, cores, cTask);
    assert s[..] == before[numTasks := cTask.(startTime := time)];
    ok := true;
  }

  /**
   * The second inner loop of createValidSchedule: removes up to cores
   * tasks from the deadline heap, earliest deadline first, and starts each
   * at the current time in the next free entry of s; fails on a task whose
   * deadline is not after the current time.
   */
  method StartDue(s: array<Task>, numTasks0: int, time: int, cores: int, deadlineHeap: MinHeap,
                  ghost tasks: seq<Task>, ghost i: int, ghost picked0: seq<Task>)
    returns (ok: bool, numTasks: int, ghost picked: seq<Task>, ghost failed: Task)
    requires cores >= 1 && 0 <= i <= |tasks| == s.Length
    requires deadlineHeap.Valid() && deadlineHeap.entries + numTasks0 == i
    requires Admitted(tasks, i, picked0, deadlineHeap.Contents(), time)
    requires Started(s[..], numTasks0, picked0, time, numTasks0, cores)
    modifies s, deadlineHeap, deadlineHeap.heap
    ensures deadlineHeap.Valid()
    ensures ok ==> && numTasks0 <= numTasks && deadlineHeap.entries + numTasks == i
                   && (numTasks == numTasks0 ==> deadlineHeap.entries == 0)
                   && Admitted(tasks, i, picked, deadlineHeap.Contents(), time)
                   && Started(s[..], numTasks, picked, time, numTasks0, cores)
    ensures !ok ==> Expired(s[..], numTasks, tasks, failed, time)
  {
    var c := 0;
    numTasks := numTasks0;
    picked := picked0;
    failed := Task("", 0, 0, 0);
    while c < cores && deadlineHeap.entries > 0
      invariant 0 <= c <= cores && numTasks == numTasks0 + c
      invariant deadlineHeap.Valid() && deadlineHeap.entries + numTasks == i
      invariant Admitted(tasks, i, picked, deadlineHeap.Contents(), time)
      invariant Started(s[..], numTasks, picked, time, numTasks0, cores)
    {
      var started;
      assert s as object != deadlineHeap.heap && s as object != deadlineHeap;
      started, picked, failed := StartNext(s, numTasks, time, deadlineHeap, tasks, i, picked, numTasks0, cores);
      if !started {
        return false, numTasks, picked, failed;
      }
      numTasks := numTasks + 1;
      c := c + 1;
    }
    ok := true;
  }

  /**
   * The state of createValidSchedule at the top of a time step: the first
   * i tasks have been admitted, numTasks of them picked and started before
   * the current time, the rest wait in the deadline heap, and the next task
   * to admit is not released before the current time.
   */
  ghost predicate Simulation(s: seq<Task>, tasks: seq<Task>, cores: int, i: int, numTasks: int,
                             picked: seq<Task>, pending: multiset<Option<Node>>, time: int) {
    && 0 <= numTasks <= i <= |tasks|
    && (i < |tasks| ==> tasks[i].release >= time)
    && Admitted(tasks, i, picked, pending, time)
    && Started(s, numTasks, picked, time, numTasks, cores)
  }

  /**
   * One time step of createValidSchedule: admits the tasks released now,
   * starts up to cores of the waiting ones and moves the clock on. Unless
   * it fails, either some task started or no task was admitted and the
   * next one is released later.
   */
  method TimeStep(s: array<Task>, tasks: array<Task>, cores: int, deadlineHeap: MinHeap,
                  i0: int, numTasks0: int, time: int, ghost picked0: seq<Task>)
    returns (ok: bool, i: int, numTasks: int, ghost picked: seq<Task>, ghost failed: Task)
    requires cores >= 1 && s.Length == tasks.Length && s != tasks && SortedByRelease(tasks[..])
    requires deadlineHeap.Valid() && deadlineHeap.size == tasks.Length + 1
    requires deadlineHeap.entries + numTasks0 == i0 && numTasks0 < tasks.Length
    requires Simulation(s[..], tasks[..], cores, i0, numTasks0, picked0, deadlineHeap.Contents(), time)
    modifies s, deadlineHeap, deadlineHeap.heap
    ensures deadlineHeap.Valid()
    ensures ok ==> && deadlineHeap.entries + numTasks == i
                   && Simulation(s[..], tasks[..], cores, i, numTasks, picked, deadlineHeap.Contents(), time + 1)
                   && numTasks0 <= numTasks
                   && (numTasks == numTasks0 ==> i == i0 && i < tasks.Length && tasks[i].release > time)
    ensures !ok ==> Expired(s[..], numTasks, tasks[..], failed, time)
  {
    assert tasks as object != deadlineHeap.heap && tasks as object != deadlineHeap;
    assert s as object != deadlineHeap.heap && s as object != deadlineHeap;
    i := AdmitReleased(tasks, i0, time, deadlineHeap, picked0);
    ok, numTasks, picked, failed := StartDue(s, numTasks0, time, cores, deadlineHeap, tasks[..], i, picked0);
    if ok {
      TickStep(s[..], numTasks, picked, time, numTasks0, cores);
    }
  }

  /**
   * createValidSchedule: simulates time from the first release. At each
   * time step the tasks released at that time enter a heap keyed by
   * deadline; then up to cores of them are removed in deadline order and
   * started at that time, written to s in order. It fails as soon as a
   * removed task's deadline is not after the current time. The tasks must
   * be sorted by release (the simulation only admits a task when the clock
   * reaches its release exactly), there must be one at least (the clock
   * starts at the first one's release) and one core at least (otherwise
   * the simulation never ends).
   */
  method CreateValidSchedule(s: array<Task>, tasks: array<Task>, cores: int, maxTasks: int)
    returns (ok: bool, ghost failTime: int, ghost failed: Task, ghost numStarted: int)
    requires cores >= 1 && maxTasks >= 1 && tasks.Length == maxTasks && s.Length == maxTasks && s != tasks
    requires SortedByRelease(tasks[..])
    modifies s
    ensures ok ==> ValidSchedule(s[..], tasks[..], cores)
    ensures !ok ==> Expired(s[..], numStarted, tasks[..], failed, failTime)
  {
    var numTasks := 0;
    var time := tasks[0].release;
    var i := 0;
    var deadlineHeap := new MinHeap(maxTasks);
    ghost var picked: seq<Task> := [];
    failTime, failed, numStarted := time, tasks[0], 0;
    while numTasks < maxTasks
      invariant fresh(deadlineHeap) && fresh(deadlineHeap.heap)
      invariant deadlineHeap.Valid() && deadlineHeap.size == maxTasks + 1
      invariant deadlineHeap.entries + numTasks == i
      invariant Simulation(s[..], tasks[..], cores, i, numTasks, picked, deadlineHeap.Contents(), time)
      decreases maxTasks - numTasks, if i < maxTasks then tasks[i].release - time else 0
    {
      var started;
      assert tasks as object != deadlineHeap.heap && tasks as object != deadlineHeap;
      started, i, numTasks, picked, failed := TimeStep(s, tasks, cores, deadlineHeap, i, numTasks, time, picked);
      if !started {
        return false, time, failed, numTasks;
      }
      time := time + 1;
    }
    Finished(s[..], tasks[..], picked, time, numTasks, cores);
    ok := true;
  }
}
