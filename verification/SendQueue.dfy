/** The asynchronous send queue of a WebSocket connection (include/server_ws.hpp and
    include/client_ws.hpp, `send` and `send_from_queue`), run in every interleaving with the scope
    counter of ScopeRunner. A strand runs posted tasks and completion handlers of a connection one at a
    time. The server writes a message in two parts, header and body, the client in one. */
module SendQueue {
  import opened ScopeRunner

  type Item = nat

  /** A piece that was written out completely. */
  datatype Chunk = Chunk(item: Item, part: nat)

  datatype Task = Enqueue(item: Item) | Start

  datatype Phase =
    | Quiet
    | Writing(part: nat)             // an `async_write` of this part of the front item is under way
    | Handling(part: nat, ok: bool)  // it completed; its handler is to take the lock
    | Dead(written: nat)             // a handler was refused the lock and returned

  datatype Conn = Conn(
    parts: nat,
    posted: seq<Task>,               // the strand's tasks, first come first served
    queue: seq<Item>,
    phase: Phase,
    wire: seq<Chunk>,
    called: seq<Item>,               // completion callbacks, in order
    failed: bool,                    // some write has failed
    sends: seq<Item>)                // `send` calls, in the order they were posted

  datatype World = World(conn: Conn, runner: Runner)

  datatype Action =
    | Send(item: Item)
    | RunTask
    | WriteDone(ok: bool)
    | RunnerMoves(t: nat, op: Op)
    | HandlerRuns
    | HandlerLeaves

  ghost predicate Begins(w: World, me: nat) {
    && w.conn.parts >= 1 && w.conn == Conn(w.conn.parts, [], [], Quiet, [], [], false, []) && Init(w.runner)
    && me < |w.runner.pcs|
  }

  /** A posted task. The emplacing task starts the queue when the item is alone in it. */
  function TaskRun(c: Conn): Conn
    requires c.posted != []
  {
    match c.posted[0]
    case Enqueue(i) =>
      var queue := c.queue + [i];
      c.(posted := c.posted[1..] + (if |queue| == 1 then [Start] else []), queue := queue)
    case Start => c.(posted := c.posted[1..], phase := Writing(0))
  }

  /** The handler's body, under its lock. */
  function Handled(c: Conn): Conn
    requires c.phase.Handling? && c.queue != []
  {
    if c.phase.ok && c.phase.part + 1 < c.parts then c.(phase := Writing(c.phase.part + 1))
    else
      var called := c.called + [c.queue[0]];
      if c.phase.ok then
        var queue := c.queue[1..];
        c.(called := called, queue := queue, phase := Quiet, posted := c.posted + if |queue| > 0 then [Start] else [])
      else c.(called := called, queue := [], phase := Quiet, failed := true)
  }

  /** One step; `me` is the thread on which the connection's handlers run. */
  ghost predicate Next(w: World, me: nat, a: Action, w': World) {
    var c, r, c', r' := w.conn, w.runner, w'.conn, w'.runner;
    match a
    case Send(i) => r' == r && c' == c.(posted := c.posted + [Enqueue(i)], sends := c.sends + [i])
    case RunTask => r' == r && c.posted != [] && !c.phase.Handling? && c' == TaskRun(c)
    case WriteDone(ok) =>
      && c.phase.Writing? && c.queue != [] && Step(r, me, EnterLock, r')
      && c' == c.(phase := Handling(c.phase.part, ok), wire := c.wire + if ok then [Chunk(c.queue[0], c.phase.part)]
          else [])
    case RunnerMoves(t, op) => (t == me ==> op.LockTry?) && Step(r, t, op, r') && c' == c
    case HandlerRuns => c.phase.Handling? && c.queue != [] && Step(r, me, Release, r') && c' == Handled(c)
    case HandlerLeaves =>
      c.phase.Handling? && Step(r, me, Leave, r') && c' == c.(phase := Dead(c.phase.part + if c.phase.ok then 1 else 0))
  }

  // ---- Invariant ----

  function Starts(posted: seq<Task>): nat {
    if posted == [] then 0 else (if posted[0].Start? then 1 else 0) + Starts(posted[1..])
  }

  function Items(posted: seq<Task>): seq<Item> {
    if posted == [] then [] else (if posted[0].Enqueue? then [posted[0].item] else []) + Items(posted[1..])
  }

  lemma {:induction false} PostedSnoc(posted: seq<Task>, t: Task)
    ensures Starts(posted + [t]) == Starts(posted) + if t.Start? then 1 else 0
    ensures Items(posted + [t]) == Items(posted) + if t.Enqueue? then [t.item] else []
  {
    if posted == [] {
      assert posted + [t] == [t];
    } else {
      PostedSnoc(posted[1..], t);
      assert (posted + [t])[1..] == posted[1..] + [t];
    }
  }

  /** Starts posted and writes under way. */
  function Outstanding(c: Conn): nat {
    Starts(c.posted) + if c.phase.Writing? || c.phase.Handling? then 1 else 0
  }

  /** The first `n` parts of an item. */
  function Parts(i: Item, n: nat): (s: seq<Chunk>)
    ensures |s| == n
  {
    if n == 0 then [] else Parts(i, n - 1) + [Chunk(i, n - 1)]
  }

  function Flat(items: seq<Item>, parts: nat): seq<Chunk> {
    if items == [] then [] else Flat(items[..|items| - 1], parts) + Parts(items[|items| - 1], parts)
  }

  /** How many parts of the front item are out. */
  function Written(p: Phase): nat {
    match p
    case Quiet => 0
    case Writing(part) => part
    case Handling(part, ok) => if ok then part + 1 else part
    case Dead(n) => n
  }

  /** At most one start or write is outstanding; exactly one while the queue is not empty, until the
      connection is dead. */
  ghost predicate OneOutstanding(c: Conn) {
    if c.phase.Dead? then Starts(c.posted) == 0 && c.queue != [] else Outstanding(c) == if c.queue != [] then 1 else 0
  }

  /** Until a write fails, everything sent is called back, queued or still posted, in order, and the wire
      holds the items called back and the written parts of the front item. */
  ghost predicate InOrder(c: Conn) {
    !c.failed ==>
      && c.sends == c.called + c.queue + Items(c.posted)
      && c.wire == Flat(c.called, c.parts) + if c.queue == [] then [] else Parts(c.queue[0], Written(c.phase))
  }

  ghost predicate PartOk(c: Conn) {
    && c.parts >= 1 && (c.phase.Writing? || c.phase.Handling? ==> c.phase.part < c.parts)
    && (c.phase.Dead? ==> c.phase.written <= c.parts)
  }

  ghost predicate SlotOk(w: World, me: nat) {
    && Inv(w.runner) && me < |w.runner.pcs|
    && (var pc := w.runner.pcs[me]; if w.conn.phase.Handling? then pc.Locking? || pc.Holding? || pc.Denied?
        else pc.Outside?)
    && (w.conn.phase.Dead? ==> w.runner.count == -1)
  }

  ghost predicate Good(w: World, me: nat) {
    OneOutstanding(w.conn) && InOrder(w.conn) && PartOk(w.conn) && SlotOk(w, me)
  }

  lemma BeginsGood(w: World, me: nat)
    requires Begins(w, me)
    ensures Good(w, me)
  {
    InitHolds(w.runner);
  }

  lemma NextRunner(w: World, me: nat, a: Action, w': World)
    requires Good(w, me) && Next(w, me, a, w')
    ensures SlotOk(w', me)
  {
    match a
    case Send(_) =>
    case RunTask =>
    case WriteDone(_) => StepKeeps(w.runner, me, EnterLock, w'.runner);
    case RunnerMoves(t, op) => StepKeeps(w.runner, t, op, w'.runner);
    case HandlerRuns => StepKeeps(w.runner, me, Release, w'.runner);
    case HandlerLeaves =>
      StepKeeps(w.runner, me, Leave, w'.runner);
      assert KnowsStopped(w.runner.pcs[me]);
  }

  lemma TaskRunGood(c: Conn)
    requires OneOutstanding(c) && InOrder(c) && PartOk(c) && c.posted != [] && !c.phase.Handling?
    ensures c.posted[0].Start? ==> c.queue != [] && c.phase.Quiet?
    ensures OneOutstanding(TaskRun(c)) && InOrder(TaskRun(c)) && PartOk(TaskRun(c))
  {
    match c.posted[0]
    case Enqueue(i) => EnqueueGood(c, i);
    case Start => StartGood(c);
  }

  lemma StartGood(c: Conn)
    requires OneOutstanding(c) && InOrder(c) && PartOk(c) && c.posted != [] && c.posted[0].Start? && !c.phase.Handling?
    ensures c.queue != [] && c.phase.Quiet?
    ensures OneOutstanding(TaskRun(c)) && InOrder(TaskRun(c)) && PartOk(TaskRun(c))
  {
    assert Items(c.posted) == [] + Items(c.posted[1..]) == Items(c.posted[1..]);
    assert Starts(c.posted) == 1 + Starts(c.posted[1..]);
    hide Flat, Parts, Starts, Items;
  }

  lemma EnqueueGood(c: Conn, i: Item)
    requires OneOutstanding(c) && InOrder(c) && PartOk(c) && c.posted != [] && c.posted[0] == Enqueue(i)
    requires !c.phase.Handling?
    ensures OneOutstanding(TaskRun(c)) && InOrder(TaskRun(c)) && PartOk(TaskRun(c))
  {
    hide Flat, Parts;
    var rest, c' := c.posted[1..], TaskRun(c);
    PostedSnoc(rest, Start);
    assert rest + [] == rest;
    assert Items(c'.posted) == Items(rest);
    Regroup(c.called, c.queue, i, Items(rest));
    hide Items;
    if c.queue == [] { assert c.phase.Quiet?; }
  }

  lemma Regroup(a: seq<Item>, b: seq<Item>, i: Item, rest: seq<Item>)
    ensures a + b + ([i] + rest) == a + (b + [i]) + rest
  {
  }

  lemma HandledGood(c: Conn)
    requires OneOutstanding(c) && InOrder(c) && PartOk(c) && c.phase.Handling? && c.queue != []
    ensures OneOutstanding(Handled(c)) && InOrder(Handled(c)) && PartOk(Handled(c))
  {
    if c.phase.ok && c.phase.part + 1 < c.parts {
      hide Flat, Parts;
    } else if c.phase.ok {
      LastPartGood(c);
    } else {
      hide Flat, Parts;
    }
  }

  /** The last part is out: the front item is done. */
  lemma LastPartGood(c: Conn)
    requires OneOutstanding(c) && InOrder(c) && PartOk(c) && c.phase.Handling? && c.queue != []
    requires c.phase.ok && c.phase.part + 1 == c.parts
    ensures OneOutstanding(Handled(c)) && InOrder(Handled(c)) && PartOk(Handled(c))
  {
    PostedSnoc(c.posted, Start);
    assert c.posted + [] == c.posted;
    hide Flat, Parts, Starts, Items;
    if !c.failed { LastPartInOrder(c); }
  }

  lemma LastPartInOrder(c: Conn)
    requires InOrder(c) && !c.failed && c.phase.Handling? && c.queue != [] && c.phase.ok && c.phase.part + 1 == c.parts
    ensures var c' := Handled(c);
      c'.sends == c'.called + c'.queue + Items(c.posted) && c'.wire == Flat(c'.called, c'.parts)
  {
    FlatSnoc(c.called, c.queue[0], c.parts);
    hide Flat, Parts, Items;
    assert c.called + [c.queue[0]] + c.queue[1..] == c.called + c.queue;
  }

  lemma FlatSnoc(items: seq<Item>, i: Item, parts: nat)
    ensures Flat(items + [i], parts) == Flat(items, parts) + Parts(i, parts)
  {
    assert (items + [i])[..|items|] == items;
  }

  /** Every step keeps the invariant. */
  lemma NextGood(w: World, me: nat, a: Action, w': World)
    requires Good(w, me) && Next(w, me, a, w')
    ensures Good(w', me)
  {
    NextRunner(w, me, a, w');
    hide SlotOk, Step;
    match a
    case Send(i) =>
      PostedSnoc(w.conn.posted, Enqueue(i));
      assert w.conn.called + w.conn.queue + Items(w.conn.posted) + [i]
          == w.conn.called + w.conn.queue + (Items(w.conn.posted) + [i]);
    case RunTask => TaskRunGood(w.conn);
    case WriteDone(ok) => WrittenGood(w.conn, w'.conn, ok);
    case RunnerMoves(_, _) =>
    case HandlerRuns => HandledGood(w.conn);
    case HandlerLeaves =>
  }

  lemma WrittenGood(c: Conn, c': Conn, ok: bool)
    requires OneOutstanding(c) && InOrder(c) && PartOk(c) && c.phase.Writing? && c.queue != []
    requires c' == c.(phase := Handling(c.phase.part, ok), wire := c.wire + if ok then [Chunk(c.queue[0], c.phase.part)]
        else [])
    ensures OneOutstanding(c') && InOrder(c') && PartOk(c')
  {
  }

  // ---- Runs ----

  ghost predicate IsHistory(ws: seq<World>, me: nat, acts: seq<Action>) {
    |ws| == |acts| + 1 && Begins(ws[0], me) && forall i :: 0 <= i < |acts| ==> Next(ws[i], me, acts[i], ws[i + 1])
  }

  lemma {:induction false} AlwaysGood(ws: seq<World>, me: nat, acts: seq<Action>, n: nat)
    requires IsHistory(ws, me, acts) && n < |ws|
    ensures Good(ws[n], me) && ws[n].conn.parts == ws[0].conn.parts
  {
    hide Good, Begins;
    if n == 0 {
      BeginsGood(ws[0], me);
    } else {
      AlwaysGood(ws, me, acts, n - 1);
      NextGood(ws[n - 1], me, acts[n - 1], ws[n]);
    }
  }

  /** In every interleaving: at most one start or write is outstanding, one only if something is queued,
      and a running start finds something to write and no write under way. */
  lemma OneWriteAtATime(ws: seq<World>, me: nat, acts: seq<Action>, n: nat)
    requires IsHistory(ws, me, acts) && n < |ws|
    ensures var c := ws[n].conn;
      && Outstanding(c) <= 1 && (Outstanding(c) == 1 ==> c.queue != [])
      && (c.posted != [] && c.posted[0].Start? && !c.phase.Handling? ==> c.queue != [] && c.phase.Quiet?)
  {
    AlwaysGood(ws, me, acts, n);
    var c := ws[n].conn;
    if c.posted != [] && c.posted[0].Start? && !c.phase.Handling? { TaskRunGood(c); }
  }

  /** Nothing queued is forgotten: unless a stop was met, a start or write is outstanding. */
  lemma NeverStalls(ws: seq<World>, me: nat, acts: seq<Action>, n: nat)
    requires IsHistory(ws, me, acts) && n < |ws| && ws[n].conn.queue != [] && Outstanding(ws[n].conn) == 0
    ensures ws[n].conn.phase.Dead? && ws[n].runner.count == -1
  {
    AlwaysGood(ws, me, acts, n);
  }

  lemma {:induction false} FlatPrefix(items: seq<Item>, parts: nat, n: nat)
    requires n <= |items|
    ensures Flat(items[..n], parts) <= Flat(items, parts)
    decreases |items| - n
  {
    if n == |items| {
      assert items[..n] == items;
    } else {
      FlatPrefix(items, parts, n + 1);
      assert items[..n + 1][..n] == items[..n];
    }
  }

  lemma {:induction false} PartsPrefix(i: Item, m: nat, n: nat)
    requires m <= n
    ensures Parts(i, m) <= Parts(i, n)
  {
    if m < n { PartsPrefix(i, m, n - 1); }
  }

  /** Until a write fails, the wire is a prefix of all items in the order they were sent, each item's
      parts together: a header is followed by its own body. */
  lemma WireInSendOrder(ws: seq<World>, me: nat, acts: seq<Action>, n: nat)
    requires IsHistory(ws, me, acts) && n < |ws| && !ws[n].conn.failed
    ensures ws[n].conn.wire <= Flat(ws[n].conn.sends, ws[n].conn.parts)
    ensures ws[n].conn.called <= ws[n].conn.sends
  {
    AlwaysGood(ws, me, acts, n);
    WirePrefix(ws[n].conn);
  }

  lemma WirePrefix(c: Conn)
    requires InOrder(c) && PartOk(c) && !c.failed
    ensures c.wire <= Flat(c.sends, c.parts) && c.called <= c.sends
  {
    hide Flat, Parts, Items;
    var k := |c.called|;
    assert c.sends[..k] == c.called;
    FlatPrefix(c.sends, c.parts, k);
    if c.queue != [] {
      var front := c.queue[0];
      assert c.sends[..k + 1] == c.called + [front];
      FlatPrefix(c.sends, c.parts, k + 1);
      FlatSnoc(c.called, front, c.parts);
      PartsPrefix(front, Written(c.phase), c.parts);
    }
  }

  /** Once a stop has returned no handler body runs any more and no callback is made. */
  lemma SilentAfterStop(ws: seq<World>, me: nat, acts: seq<Action>, m: nat, n: nat)
    requires IsHistory(ws, me, acts) && m <= n < |acts| && ws[m].runner.count == -1
    ensures acts[n] != HandlerRuns && ws[n + 1].conn.called == ws[m].conn.called
    decreases n
  {
    CountStays(ws, me, acts, m, n);
    AlwaysGood(ws, me, acts, n);
    NoHolders(ws[n].runner.pcs);
    assert Next(ws[n], me, acts[n], ws[n + 1]);
    if m < n { SilentAfterStop(ws, me, acts, m, n - 1); }
  }

  lemma HistoryStep(ws: seq<World>, me: nat, acts: seq<Action>, n: nat)
    requires IsHistory(ws, me, acts) && n + 1 < |ws|
    ensures |ws| == |acts| + 1 && Next(ws[n], me, acts[n], ws[n + 1])
  {
  }

  /** Writes that may still complete when no handler body runs. */
  function LastWrites(p: Phase): nat {
    if p.Quiet? || p.Writing? then 1 else 0
  }

  lemma OneWriteLeft(w: World, me: nat, a: Action, w': World)
    requires Good(w, me) && Next(w, me, a, w') && a != HandlerRuns
    ensures w.conn.wire <= w'.conn.wire
    ensures |w'.conn.wire| + LastWrites(w'.conn.phase) <= |w.conn.wire| + LastWrites(w.conn.phase)
  {
    hide InOrder, SlotOk, Step;
    if a == RunTask && w.conn.posted[0].Start? { StartIsOutstanding(w.conn.posted); }
  }

  lemma StartIsOutstanding(posted: seq<Task>)
    requires posted != [] && posted[0].Start?
    ensures Starts(posted) >= 1
  {
  }

  /** Steps from any state on. */
  ghost predicate IsPath(ws: seq<World>, me: nat, acts: seq<Action>) {
    |ws| == |acts| + 1 && forall i :: 0 <= i < |acts| ==> Next(ws[i], me, acts[i], ws[i + 1])
  }

  lemma PathStep(ws: seq<World>, me: nat, acts: seq<Action>, n: nat)
    requires IsPath(ws, me, acts) && n + 1 < |ws|
    ensures |ws| == |acts| + 1 && Next(ws[n], me, acts[n], ws[n + 1])
  {
  }

  lemma StoppedStep(w: World, me: nat, a: Action, w': World)
    requires Good(w, me) && w.runner.count == -1 && Next(w, me, a, w')
    ensures Good(w', me) && w'.runner.count == -1 && a != HandlerRuns
    ensures w.conn.wire <= w'.conn.wire
    ensures |w'.conn.wire| + LastWrites(w'.conn.phase) <= |w.conn.wire| + LastWrites(w.conn.phase)
  {
    NoHolders(w.runner.pcs);
    CountStep(w, me, a, w');
    NextGood(w, me, a, w');
    hide LastWrites, InOrder;
    OneWriteLeft(w, me, a, w');
  }

  /** Whatever follows a state in which a stop has returned. */
  lemma {:induction false} PathAfterStop(ws: seq<World>, me: nat, acts: seq<Action>, n: nat)
    requires IsPath(ws, me, acts) && n < |ws| && Good(ws[0], me) && ws[0].runner.count == -1
    ensures Good(ws[n], me) && ws[n].runner.count == -1 && ws[0].conn.wire <= ws[n].conn.wire
    ensures |ws[n].conn.wire| + LastWrites(ws[n].conn.phase) <= |ws[0].conn.wire| + LastWrites(ws[0].conn.phase)
  {
    hide Good, IsPath, Next, LastWrites;
    if n > 0 {
      PathStep(ws, me, acts, n - 1);
      PathAfterStop(ws, me, acts, n - 1);
      StoppedStep(ws[n - 1], me, acts[n - 1], ws[n]);
    }
  }

  lemma Suffix(ws: seq<World>, me: nat, acts: seq<Action>, m: nat)
    requires IsHistory(ws, me, acts) && m < |ws|
    ensures m <= |acts| && IsPath(ws[m..], me, acts[m..])
  {
  }

  /** A stop does not stop the wire at once: the write under way, or one that a posted start still
      begins, may complete. After that nothing is written any more. */
  lemma AtMostOneChunkAfterStop(ws: seq<World>, me: nat, acts: seq<Action>, m: nat, n: nat)
    requires IsHistory(ws, me, acts) && m <= n < |ws| && ws[m].runner.count == -1
    ensures ws[m].conn.wire <= ws[n].conn.wire
    ensures |ws[n].conn.wire| + LastWrites(ws[n].conn.phase) <= |ws[m].conn.wire| + LastWrites(ws[m].conn.phase)
    ensures |ws[n].conn.wire| <= |ws[m].conn.wire| + 1
  {
    AlwaysGood(ws, me, acts, m);
    Suffix(ws, me, acts, m);
    hide Good, IsPath, IsHistory;
    PathAfterStop(ws[m..], me, acts[m..], n - m);
  }

  // ---- When a chunk can still follow ----

  /** Steps from `w` on that put something on the wire. */
  ghost predicate Writes(ws: seq<World>, me: nat, acts: seq<Action>, w: World) {
    IsPath(ws, me, acts) && ws[0] == w && |ws[|acts|].conn.wire| > |w.conn.wire|
  }

  predicate NoSends(acts: seq<Action>) {
    forall i :: 0 <= i < |acts| ==> !acts[i].Send?
  }

  lemma PathCons(w: World, me: nat, a: Action, ws: seq<World>, acts: seq<Action>)
    requires IsPath(ws, me, acts) && Next(w, me, a, ws[0])
    ensures IsPath([w] + ws, me, [a] + acts) && ([w] + ws)[|acts| + 1] == ws[|acts|]
  {
    hide Next;
    var ws', acts' := [w] + ws, [a] + acts;
    forall i | 0 <= i < |acts'| ensures Next(ws'[i], me, acts'[i], ws'[i + 1]) {
      if i > 0 { assert Next(ws[i - 1], me, acts[i - 1], ws[i]); }
    }
  }

  /** Tasks to run before a write is under way. */
  function Distance(c: Conn): nat {
    if c.phase.Writing? then 0
    else if c.posted == [] then 4
    else 2 * |c.posted| + if c.queue == [] then 1 else 0
  }

  /** Where a write may still be made, one is made: without a further call of `send` if anything is under
      way or posted. */
  lemma {:induction false} WriteComes(w: World, me: nat) returns (ws: seq<World>, acts: seq<Action>)
    requires Good(w, me) && w.runner.count == -1 && (w.conn.phase.Writing? || w.conn.phase.Quiet?)
    ensures Writes(ws, me, acts, w) && (w.conn.phase.Writing? || w.conn.posted != [] ==> NoSends(acts))
    decreases Distance(w.conn)
  {
    var a := if w.conn.phase.Writing? then WriteDone(true) else if w.conn.posted == [] then Send(0) else RunTask;
    var w' := ActOn(w, me, a);
    StoppedStep(w, me, a, w');
    if w.conn.phase.Writing? {
      ws, acts := [w, w'], [a];
    } else {
      CloserToWriting(w, me, a);
      hide Good, Next, ActOn;
      ws, acts := WriteComes(w', me);
      PathCons(w, me, a, ws, acts);
      hide IsPath;
      ws, acts := [w] + ws, [a] + acts;
    }
  }

  /** The next state after one of these actions. */
  ghost function ActOn(w: World, me: nat, a: Action): (w': World)
    requires Good(w, me) && w.runner.count == -1
    requires match a
      case Send(_) => true
      case RunTask => w.conn.phase.Quiet? && w.conn.posted != []
      case WriteDone(ok) => ok && w.conn.phase.Writing?
      case _ => false
    ensures Next(w, me, a, w')
  {
    var c, r := w.conn, w.runner;
    match a
    case Send(i) => World(c.(posted := c.posted + [Enqueue(i)], sends := c.sends + [i]), r)
    case RunTask => World(TaskRun(c), r)
    case WriteDone(_) =>
      World(c.(phase := Handling(c.phase.part, true), wire := c.wire + [Chunk(c.queue[0], c.phase.part)]),
          At(r, me, r.count, Locking(r.count)))
  }

  lemma CloserToWriting(w: World, me: nat, a: Action)
    requires Good(w, me) && w.runner.count == -1 && w.conn.phase.Quiet?
    requires a == if w.conn.posted == [] then Send(0) else RunTask
    ensures var c := ActOn(w, me, a).conn;
      (c.phase.Writing? || (c.phase.Quiet? && c.posted != [])) && Distance(c) < Distance(w.conn)
          && c.wire == w.conn.wire
  {
    if w.conn.posted != [] {
      TaskRunGood(w.conn);
      assert TaskRun(w.conn).phase.Quiet? && TaskRun(w.conn).queue != [] ==> TaskRun(w.conn).posted != [];
    }
  }

  /** Nothing to do and nothing sent: nothing happens. */
  lemma {:induction false} StaysIdle(ws: seq<World>, me: nat, acts: seq<Action>, n: nat)
    requires IsPath(ws, me, acts) && n < |ws| && NoSends(acts)
    requires ws[0].conn.phase.Quiet? && ws[0].conn.posted == []
    ensures ws[n].conn == ws[0].conn
  {
    hide IsPath, Step;
    if n > 0 {
      PathStep(ws, me, acts, n - 1);
      StaysIdle(ws, me, acts, n - 1);
    }
  }

  /** After a stop, exactly when a chunk can still follow: if no handler is at the lock or was refused.
      Without further calls of `send`: if a write is under way, or none and some task is posted. */
  lemma ChunkMayFollow(w: World, me: nat)
    requires Good(w, me) && w.runner.count == -1
    ensures (exists ws, acts :: Writes(ws, me, acts, w)) <==> w.conn.phase.Writing? || w.conn.phase.Quiet?
    ensures (exists ws, acts :: Writes(ws, me, acts, w) && NoSends(acts))
       <==> w.conn.phase.Writing? || (w.conn.phase.Quiet? && w.conn.posted != [])
  {
    hide Good, Next, NoSends;
    if w.conn.phase.Writing? || w.conn.phase.Quiet? {
      var ws, acts := WriteComes(w, me);
    }
    forall ws, acts | Writes(ws, me, acts, w)
      ensures w.conn.phase.Writing? || w.conn.phase.Quiet?
      ensures NoSends(acts) ==> w.conn.phase.Writing? || w.conn.posted != []
    {
      PathAfterStop(ws, me, acts, |acts|);
      if NoSends(acts) && w.conn.phase.Quiet? && w.conn.posted == [] { StaysIdle(ws, me, acts, |acts|); }
    }
  }

  function Idle(count: int, stopper: Pc, posted: seq<Task>, queue: seq<Item>, phase: Phase, sends: seq<Item>): World {
    World(Conn(2, posted, queue, phase, [], [], false, sends), Runner(count, [Outside, stopper]))
  }

  /** That one chunk can be a header whose body never follows. */
  lemma HeaderAfterStop() returns (ws: seq<World>, acts: seq<Action>)
    ensures IsHistory(ws, 0, acts) && |ws| == 7 && ws[2].runner.count == -1 && ws[2].conn.wire == []
    ensures ws[2].conn.posted == []
    ensures ws[6].conn.wire == [Chunk(7, 0)] && ws[6].conn.parts == 2
  {
    var stop, send: Action := RunnerMoves(1, StopTry(false)), Send(7);
    acts := [RunnerMoves(1, EnterStop), stop, send, RunTask, RunTask, WriteDone(true)];
    var w5 := Idle(-1, Stopped, [], [7], Writing(0), [7]);
    var last := World(w5.conn.(phase := Handling(0, true), wire := [Chunk(7, 0)]), Runner(-1, [Locking(-1), Stopped]));
    ws := [Idle(0, Outside, [], [], Quiet, []), Idle(0, Stopping, [], [], Quiet, []),
        Idle(-1, Stopped, [], [], Quiet, []),
           Idle(-1, Stopped, [Enqueue(7)], [], Quiet, [7]), Idle(-1, Stopped, [Start], [7], Quiet, [7]), w5, last];
    forall i | 0 <= i < |acts| ensures Next(ws[i], 0, acts[i], ws[i + 1]) {
    }
  }

  lemma CountStep(w: World, me: nat, a: Action, w': World)
    requires Good(w, me) && Next(w, me, a, w') && w.runner.count == -1
    ensures w'.runner.count == -1
  {
    match a
    case Send(_) =>
    case RunTask =>
    case WriteDone(_) => StepKeeps(w.runner, me, EnterLock, w'.runner);
    case RunnerMoves(t, op) => StepKeeps(w.runner, t, op, w'.runner);
    case HandlerRuns => StepKeeps(w.runner, me, Release, w'.runner);
    case HandlerLeaves => StepKeeps(w.runner, me, Leave, w'.runner);
  }

  lemma {:induction false} CountStays(ws: seq<World>, me: nat, acts: seq<Action>, m: nat, n: nat)
    requires IsHistory(ws, me, acts) && m <= n < |ws| && ws[m].runner.count == -1
    ensures ws[n].runner.count == -1
  {
    if m < n {
      CountStays(ws, me, acts, m, n - 1);
      AlwaysGood(ws, me, acts, n - 1);
      hide Good;
      CountStep(ws[n - 1], me, acts[n - 1], ws[n]);
    }
  }

  // ---- What a failed write drops ----

  /** Items dropped by this action: all but the first in the queue when a failed write is handled. */
  function Drops(c: Conn, a: Action): seq<Item> {
    if a.HandlerRuns? && c.phase.Handling? && !c.phase.ok && c.queue != [] then c.queue[1..] else []
  }

  function Dropped(ws: seq<World>, acts: seq<Action>, n: nat): seq<Item>
    requires |ws| == |acts| + 1 && n < |ws|
  {
    if n == 0 then [] else Dropped(ws, acts, n - 1) + Drops(ws[n - 1].conn, acts[n - 1])
  }

  lemma {:induction false} DroppedStays(ws: seq<World>, acts: seq<Action>, m: nat, n: nat, x: Item)
    requires |ws| == |acts| + 1 && m <= n < |ws| && x in Dropped(ws, acts, m)
    ensures x in Dropped(ws, acts, n)
  {
    if m < n { DroppedStays(ws, acts, m, n - 1, x); }
  }

  function Count(s: seq<Item>, x: Item): nat {
    multiset(s)[x]
  }

  lemma CountJoin(a: seq<Item>, b: seq<Item>, x: Item)
    ensures Count(a + b, x) == Count(a, x) + Count(b, x)
  {
  }

  lemma CountOne(i: Item, x: Item)
    ensures Count([i], x) == (if x == i then 1 else 0) && Count([], x) == 0
  {
  }

  lemma CountIn(s: seq<Item>, x: Item)
    ensures x in s <==> Count(s, x) > 0
  {
  }

  lemma CountHead(s: seq<Item>, x: Item)
    requires s != []
    ensures Count(s, x) == Count(s[1..], x) + if x == s[0] then 1 else 0
  {
    assert s == [s[0]] + s[1..];
    CountJoin([s[0]], s[1..], x);
  }

  /** How often an item is called back, queued or posted. */
  function Around(c: Conn, x: Item): nat {
    Count(c.called, x) + Count(c.queue, x) + Count(Items(c.posted), x)
  }

  predicate ItemKnown(c: Conn, x: Item) {
    x in c.called || (c.queue != [] && x == c.queue[0])
  }

  /** What is on the wire belongs to an item called back or to the front item. */
  ghost predicate WireKnown(c: Conn) {
    forall k :: 0 <= k < |c.wire| ==> ItemKnown(c, c.wire[k].item)
  }

  lemma EnqueueConserves(c: Conn, i: Item, x: Item)
    requires c.posted != [] && c.posted[0] == Enqueue(i)
    ensures Around(TaskRun(c), x) == Around(c, x) && TaskRun(c).sends == c.sends
  {
    var rest, c' := c.posted[1..], TaskRun(c);
    PostedSnoc(rest, Start);
    assert rest + [] == rest;
    assert Items(c'.posted) == Items(rest) && Items(c.posted) == [i] + Items(rest);
    hide Items, Count;
    CountJoin(c.queue, [i], x);
    CountJoin([i], Items(rest), x);
  }

  lemma StartConserves(c: Conn, x: Item)
    requires c.posted != [] && c.posted[0].Start?
    ensures Around(TaskRun(c), x) == Around(c, x) && TaskRun(c).sends == c.sends
  {
    var rest := c.posted[1..];
    assert Items(c.posted) == [] + Items(rest) == Items(rest);
    hide Items, Count;
  }

  lemma HandledConserves(c: Conn, x: Item)
    requires c.phase.Handling? && c.queue != []
    ensures Around(Handled(c), x) + Count(Drops(c, HandlerRuns), x) == Around(c, x) && Handled(c).sends == c.sends
  {
    hide Items, Count;
    var front := c.queue[0];
    CountOne(front, x);
    if c.phase.ok && c.phase.part + 1 < c.parts {
      assert Drops(c, HandlerRuns) == [];
    } else {
      CountJoin(c.called, [front], x);
      CountHead(c.queue, x);
      if c.phase.ok { StartAdds(c.posted); }
    }
  }

  lemma StartAdds(posted: seq<Task>)
    ensures Items(posted + [Start]) == Items(posted) && posted + [] == posted
  {
    PostedSnoc(posted, Start);
  }

  lemma NextConserves(w: World, me: nat, a: Action, w': World, x: Item)
    requires Next(w, me, a, w')
    ensures Count(w'.conn.sends, x) - Around(w'.conn, x) - Count(Drops(w.conn, a), x)
        == Count(w.conn.sends, x) - Around(w.conn, x)
  {
    hide Step, Items, Count, TaskRun, Handled;
    CountOne(0, x);
    var c := w.conn;
    match a
    case Send(i) =>
      PostedSnoc(c.posted, Enqueue(i));
      CountJoin(c.sends, [i], x);
      CountJoin(Items(c.posted), [i], x);
    case RunTask =>
      match c.posted[0] {
        case Enqueue(i) => EnqueueConserves(c, i, x);
        case Start => StartConserves(c, x);
      }
    case WriteDone(_) =>
    case RunnerMoves(_, _) =>
    case HandlerRuns => HandledConserves(c, x);
    case HandlerLeaves =>
  }

  lemma NextKnown(w: World, me: nat, a: Action, w': World)
    requires Next(w, me, a, w') && WireKnown(w.conn)
    ensures WireKnown(w'.conn)
  {
    hide Step, Items;
    forall k | 0 <= k < |w'.conn.wire| ensures ItemKnown(w'.conn, w'.conn.wire[k].item) {
      if k < |w.conn.wire| { assert ItemKnown(w.conn, w.conn.wire[k].item); }
    }
  }

  lemma BeginsAccounted(w: World, me: nat, x: Item)
    requires Begins(w, me)
    ensures Count(w.conn.sends, x) == Around(w.conn, x) + Count([], x) && WireKnown(w.conn)
  {
  }

  /** Nothing sent is lost sight of, failures or not: it is called back, queued, posted or dropped, once
      for each time it was sent. What is on the wire was called back or is at the front. */
  lemma {:induction false} EveryItemAccounted(ws: seq<World>, me: nat, acts: seq<Action>, n: nat, x: Item)
    requires IsHistory(ws, me, acts) && n < |ws|
    ensures Count(ws[n].conn.sends, x) == Around(ws[n].conn, x) + Count(Dropped(ws, acts, n), x)
    ensures WireKnown(ws[n].conn)
  {
    assert Begins(ws[0], me) && |ws| == |acts| + 1;
    hide IsHistory, Next, Count;
    if n == 0 {
      BeginsAccounted(ws[0], me, x);
    } else {
      hide Around, Drops, WireKnown, Begins;
      HistoryStep(ws, me, acts, n - 1);
      EveryItemAccounted(ws, me, acts, n - 1, x);
      NextConserves(ws[n - 1], me, acts[n - 1], ws[n], x);
      NextKnown(ws[n - 1], me, acts[n - 1], ws[n]);
      CountJoin(Dropped(ws, acts, n - 1), Drops(ws[n - 1].conn, acts[n - 1]), x);
    }
  }

  /** A failed write drops what was queued behind it: where no item is sent twice, an item behind the
      front when the failure is handled never reaches the wire and its callback is never called. */
  lemma FailureDropsQueue(ws: seq<World>, me: nat, acts: seq<Action>, m: nat, n: nat, x: Item)
    requires IsHistory(ws, me, acts) && m < |acts| && m <= n < |ws| && Count(ws[n].conn.sends, x) <= 1
    requires x in Drops(ws[m].conn, acts[m])
    ensures x !in ws[n].conn.called && forall k :: 0 <= k < |ws[n].conn.wire| ==> ws[n].conn.wire[k].item != x
  {
    var c, dropped := ws[n].conn, Dropped(ws, acts, n);
    EveryItemAccounted(ws, me, acts, n, x);
    if n == m {
      assert c.queue != [] && x in c.queue[1..];
      CountHead(c.queue, x);
      CountIn(c.queue[1..], x);
    } else {
      assert x in Dropped(ws, acts, m + 1);
      DroppedStays(ws, acts, m + 1, n, x);
    }
    hide Dropped, Items, Drops, Count, IsHistory;
    CountIn(dropped, x);
    CountIn(c.called, x);
    CountIn(c.queue, x);
    if c.queue != [] { CountHead(c.queue, x); }
    assert !ItemKnown(c, x);
    forall k | 0 <= k < |c.wire| ensures c.wire[k].item != x { assert ItemKnown(c, c.wire[k].item); }
  }
}
