/** Hierarchical timing wheel (co/timewheel.c): one wheel of 256 slots for the next 256 ticks and
    coarser wheels of 64 slots whose timers are re-placed ("cascaded") when their slot comes round.
    One-shot timers; a slot is a list of timers, appended at the tail. Two defects are part of the model:
    a slot of the first wheel that has fired once is dead, because only its head pointer is cleared, and
    timers far ahead come back to the very slot that is being drained. */
module TimeWheel {
  import opened Common

  /** `born` is the clock when the timer was added. */
  datatype Timer = Timer(id: nat, born: nat, expiry: nat)

  /** The handler of `timer` ran while the wheel's clock stood at `tick`. */
  datatype Firing = Firing(timer: Timer, tick: nat)

  type Wheel = seq<seq<Timer>>

  const TV1_SIZE := 256
  const TV_SIZE := 64
  const SPAN2 := 256            // ticks per slot of tv2, tv3, tv4, tv5
  const SPAN3 := 16384
  const SPAN4 := 1048576
  const SPAN5 := 67108864

  // ---- What the wheels hold ----

  ghost function Held(w: Wheel): multiset<Timer> {
    if w == [] then multiset{} else multiset(w[0]) + Held(w[1..])
  }

  lemma {:induction false} HeldUpdate(w: Wheel, s: nat, slot: seq<Timer>)
    requires s < |w|
    ensures Held(w[s := slot]) + multiset(w[s]) == Held(w) + multiset(slot)
  {
    var w' := w[s := slot];
    assert Held(w) == multiset(w[0]) + Held(w[1..]) && Held(w') == multiset(w'[0]) + Held(w'[1..]);
    if s == 0 {
      assert w'[1..] == w[1..];
    } else {
      HeldUpdate(w[1..], s - 1, slot);
      assert w'[1..] == w[1..][s - 1 := slot] && w[1..][s - 1] == w[s];
      var head, old', new' := multiset(w[0]), Held(w[1..]), Held(w'[1..]);
      assert head + new' + multiset(w[s]) == head + (new' + multiset(w[s])) == head + (old' + multiset(slot));
    }
  }

  lemma HeldCleared(w: Wheel, s: nat, u: Timer)
    requires s < |w|
    ensures Held(w[s := []])[u] + multiset(w[s])[u] == Held(w)[u]
  {
    HeldUpdate(w, s, []);
    assert (Held(w[s := []]) + multiset(w[s]))[u] == (Held(w) + multiset([]))[u];
  }

  lemma {:induction false} HeldSlot(w: Wheel, t: Timer) returns (s: nat)
    requires t in Held(w)
    ensures s < |w| && t in w[s]
  {
    if t in w[0] { return 0; }
    s := HeldSlot(w[1..], t);
    s := s + 1;
  }

  ghost function Fired(log: seq<Firing>): multiset<Timer> {
    if log == [] then multiset{} else Fired(log[..|log| - 1]) + multiset{log[|log| - 1].timer}
  }

  lemma {:induction false} FiredWitness(log: seq<Firing>, t: Timer) returns (k: nat)
    requires t in Fired(log)
    ensures k < |log| && log[k].timer == t
  {
    k := |log| - 1;
    if log[k].timer != t { k := FiredWitness(log[..k], t); }
  }

  lemma LogFired(log: seq<Firing>, t: Timer, tick: nat)
    ensures Fired(log + [Firing(t, tick)]) == Fired(log) + multiset{t}
  {
    assert (log + [Firing(t, tick)])[..|log|] == log;
  }

  // ---- Where a timer belongs ----

  /** The clock when the timer reaches the first wheel: at once, or with the cascade that begins its last
      stretch of 256 ticks. A cascade at the very expiry calls the handler directly. */
  function Entry(t: Timer): (n: nat)
    ensures t.born <= t.expiry ==> n <= t.expiry
  {
    if t.expiry - t.born < TV1_SIZE then t.born else t.expiry / TV1_SIZE * TV1_SIZE
  }

  /** Slots of the first wheel that have been drained, and when first. */
  type Drained = map<nat, nat>

  /** The timer enters a slot that was drained before: its list has a tail but no head, so the timer is
      linked behind one already freed and never found again. */
  predicate Dead(t: Timer, drained: Drained) {
    Entry(t) < t.expiry && t.expiry % TV1_SIZE in drained && drained[t.expiry % TV1_SIZE] <= Entry(t)
  }

  /** Set too far ahead, see `Serviceable`. */
  predicate Stray(t: Timer) {
    !Serviceable(t.born, t.expiry)
  }

  /** A timer of the first wheel sits in the slot of its expiry, at most one turn ahead. */
  ghost predicate Near(t: Timer, s: nat, tick: nat) {
    t.expiry % TV1_SIZE == s && tick < t.expiry < tick + TV1_SIZE && Entry(t) <= tick && !Stray(t)
  }

  /** In units of a coarse wheel, its slot `s` comes round next after time `now` at this time. */
  function NextTurn(now: nat, s: nat): (q: nat)
    requires s < TV_SIZE
    ensures now < q <= now + TV_SIZE && q % TV_SIZE == s
    ensures forall p :: now < p < q ==> p % TV_SIZE != s
  {
    now + 1 + (s - now - 1) % TV_SIZE
  }

  function SpanOf(k: nat): nat
    requires 2 <= k <= 4
  {
    if k == 2 then SPAN2 else if k == 3 then SPAN3 else SPAN4
  }

  /** A timer of coarse wheel `k` expires in the stretch that begins with its slot's next turn. A stray
      one expires so long after it that the same slot will be chosen again. */
  ghost predicate Far(k: nat, t: Timer, s: nat, tick: nat)
    requires 2 <= k <= 4 && s < TV_SIZE
  {
    && t.expiry - t.born >= TV1_SIZE
    && (k < 4 ==> !Stray(t) && t.expiry / SpanOf(k) == NextTurn(tick / SpanOf(k), s))
    && (k == 4 ==> AfterTurn(t, NextTurn(tick / SPAN4, s) * SPAN4, s))
  }

  ghost predicate AfterTurn(t: Timer, turn: nat, s: nat) {
    turn <= t.expiry && if Stray(t) then t.expiry - turn >= SPAN5 && s == t.expiry / SPAN5 % TV_SIZE
        else t.expiry - turn < SPAN5
  }

  datatype Place = Now | Slot(wheel: int, s: nat)

  /** The branch of `_AddTimer` taken at time `tick` for expiry `e`. */
  function PlaceOf(tick: nat, e: nat): Place {
    var idx := e - tick;
    if idx <= 0 then Now
    else if idx < SPAN2 then Slot(1, e % TV1_SIZE)
    else if idx < SPAN3 then Slot(2, e / SPAN2 % TV_SIZE)
    else if idx < SPAN4 then Slot(3, e / SPAN3 % TV_SIZE)
    else if idx < SPAN5 then Slot(4, e / SPAN4 % TV_SIZE)
    else Slot(4, e / SPAN5 % TV_SIZE)
  }

  /** What a caller can check before adding a timer: it will reach the first wheel in time. Always so
      below 2^26 ticks ahead; beyond, the last branch picks a `tv4` slot by the wrong digit of the expiry,
      and all depends on how far the expiry still is when that slot next comes round. */
  predicate Serviceable(tick: nat, e: nat) {
    e - tick < SPAN5 || e - NextTurn(tick / SPAN4, e / SPAN5 % TV_SIZE) * SPAN4 < SPAN5
  }

  lemma NextTurnUnique(now: nat, s: nat, q: nat)
    requires s < TV_SIZE && now < q <= now + TV_SIZE && q % TV_SIZE == s
    ensures NextTurn(now, s) == q
  {
  }

  lemma FarByDigit(k: nat, tick: nat, t: Timer)
    requires 2 <= k <= 4 && SpanOf(k) <= t.expiry - tick < SpanOf(k) * TV_SIZE && t.expiry - t.born >= TV1_SIZE
    requires !Stray(t)
    ensures Far(k, t, t.expiry / SpanOf(k) % TV_SIZE, tick)
  {
    if k == 2 {
      NextTurnUnique(tick / SPAN2, t.expiry / SPAN2 % TV_SIZE, t.expiry / SPAN2);
    } else if k == 3 {
      NextTurnUnique(tick / SPAN3, t.expiry / SPAN3 % TV_SIZE, t.expiry / SPAN3);
    } else {
      NextTurnUnique(tick / SPAN4, t.expiry / SPAN4 % TV_SIZE, t.expiry / SPAN4);
    }
  }

  /** Place `p` suits the timer at this tick. */
  ghost predicate Suits(t: Timer, p: Place, tick: nat) {
    && (p.Now? ==> t.expiry == tick == Entry(t) && !Stray(t))
    && (p.Slot? ==> 1 <= p.wheel <= 4 && p.s < (if p.wheel == 1 then TV1_SIZE else TV_SIZE))
    && (p.Slot? && p.wheel == 1 ==> Near(t, p.s, tick) && Entry(t) == tick)
    && (p.Slot? && p.wheel > 1 ==> Far(p.wheel, t, p.s, tick))
  }

  /** Every branch of `_AddTimer` puts a new timer where its wheel will find it. */
  lemma PlacedWell(t: Timer)
    requires t.born < t.expiry
    ensures Suits(t, PlaceOf(t.born, t.expiry), t.born)
  {
    var d := t.expiry - t.born;
    if SPAN2 <= d < SPAN3 {
      FarByDigit(2, t.born, t);
    } else if SPAN3 <= d < SPAN4 {
      FarByDigit(3, t.born, t);
    } else if SPAN4 <= d < SPAN5 {
      FarByDigit(4, t.born, t);
    } else if SPAN5 <= d {
      var s := t.expiry / SPAN5 % TV_SIZE;
      assert NextTurn(t.born / SPAN4, s) * SPAN4 <= t.born + SPAN5;
    }
  }

  /** A timer met by the cascade of slot `s` of wheel `k`: not late, and re-placed strictly lower or,
      when its timeout was 2^26 or more, once more in the top wheel but in another slot. */
  ghost predicate Descends(k: nat, t: Timer, s: nat, tick: nat) {
    && tick <= t.expiry && !Stray(t)
    && var p := PlaceOf(tick, t.expiry);
      Suits(t, p, tick) && (p.Now? || p.wheel < k || (k == 4 && p.wheel == 4 && p.s != s))
  }

  /** A stray timer goes back to the slot that is being drained. */
  ghost predicate ComesBack(k: nat, t: Timer, s: nat, tick: nat) {
    k == 4 && Stray(t) && tick < t.expiry && PlaceOf(tick, t.expiry) == Slot(4, s)
  }

  lemma CascadeDown(k: nat, t: Timer, s: nat, tick: nat)
    requires 2 <= k <= 4 && 0 < tick && tick % SpanOf(k) == 0 && s == tick / SpanOf(k) % TV_SIZE
    requires Far(k, t, s, tick - 1)
    ensures if Stray(t) then ComesBack(k, t, s, tick) else Descends(k, t, s, tick)
  {
    DueNow(k, t, s, tick);
    if !Stray(t) { CascadePlaces(k, t, s, tick); }
  }

  lemma CascadePlaces(k: nat, t: Timer, s: nat, tick: nat)
    requires 2 <= k <= 4 && tick % SpanOf(k) == 0 && s == tick / SpanOf(k) % TV_SIZE
    requires !Stray(t) && t.expiry - t.born >= TV1_SIZE
    requires 0 <= t.expiry - tick < if k == 2 then SPAN2 else if k == 3 then SPAN3 else SPAN5
    ensures Descends(k, t, s, tick)
  {
    assert tick % TV1_SIZE == 0;
    Lower(k, t.expiry, s, tick);
    hide SpanOf, PlaceOf, Stray;
    SuitsWhenDue(t, tick);
  }

  lemma Lower(k: nat, e: nat, s: nat, tick: nat)
    requires 2 <= k <= 4 && tick % SpanOf(k) == 0 && s == tick / SpanOf(k) % TV_SIZE
    requires 0 <= e - tick < if k == 2 then SPAN2 else if k == 3 then SPAN3 else SPAN5
    ensures var p := PlaceOf(tick, e); p.Now? || p.wheel < k || (k == 4 && p.wheel == 4 && p.s != s)
  {
    if SPAN4 <= e - tick {
      assert k == 4;
      OtherSlot(tick, e);
    }
  }

  lemma SuitsWhenDue(t: Timer, tick: nat)
    requires tick % TV1_SIZE == 0 && !Stray(t) && t.expiry - t.born >= TV1_SIZE && 0 <= t.expiry - tick < SPAN5
    ensures Suits(t, PlaceOf(tick, t.expiry), tick)
  {
    hide Far, NextTurn, Stray, Entry;
    var d := t.expiry - tick;
    if d < SPAN2 {
      Arrives(t, tick);
    } else if d < SPAN3 {
      FarByDigit(2, tick, t);
    } else if d < SPAN4 {
      FarByDigit(3, tick, t);
    } else {
      FarByDigit(4, tick, t);
    }
  }

  lemma Arrives(t: Timer, tick: nat)
    requires tick % TV1_SIZE == 0 && 0 <= t.expiry - tick < TV1_SIZE <= t.expiry - t.born
    ensures Entry(t) == tick
  {
  }

  /** The stretch of slot `s` begins at this tick. */
  lemma DueNow(k: nat, t: Timer, s: nat, tick: nat)
    requires 2 <= k <= 4 && 0 < tick && tick % SpanOf(k) == 0 && s == tick / SpanOf(k) % TV_SIZE
    requires Far(k, t, s, tick - 1)
    ensures if Stray(t) then k == 4 && t.expiry - tick >= SPAN5 && s == t.expiry / SPAN5 % TV_SIZE
      else 0 <= t.expiry - tick < if k == 2 then SPAN2 else if k == 3 then SPAN3 else SPAN5
  {
    hide Stray;
    if k == 2 {
      NextTurnUnique((tick - 1) / SPAN2, s, tick / SPAN2);
    } else if k == 3 {
      NextTurnUnique((tick - 1) / SPAN3, s, tick / SPAN3);
    } else {
      NextTurnUnique((tick - 1) / SPAN4, s, tick / SPAN4);
    }
  }

  lemma OtherSlot(tick: nat, e: nat)
    requires tick % SPAN4 == 0 && SPAN4 <= e - tick < SPAN5
    ensures e / SPAN4 % TV_SIZE != tick / SPAN4 % TV_SIZE
  {
    var a, b := tick / SPAN4, e / SPAN4;
    assert 1 <= b - a < TV_SIZE;
  }

  /** The clock moves on: timers stay well placed, except in a slot whose turn it is. */
  lemma FarLater(k: nat, t: Timer, s: nat, tick: nat)
    requires 2 <= k <= 4 && 0 < tick && s < TV_SIZE && Far(k, t, s, tick - 1)
    requires tick % SpanOf(k) != 0 || s != tick / SpanOf(k) % TV_SIZE
    ensures Far(k, t, s, tick)
  {
    if tick % SpanOf(k) != 0 {
      assert tick / SpanOf(k) == (tick - 1) / SpanOf(k);
    } else {
      var q := NextTurn((tick - 1) / SpanOf(k), s);
      assert q != tick / SpanOf(k);
      NextTurnUnique(tick / SpanOf(k), s, q);
    }
  }

  // ---- Draining a slot of a coarse wheel ----

  function StraysIn(ts: seq<Timer>): nat {
    if ts == [] then 0 else (if Stray(ts[0]) then 1 else 0) + StraysIn(ts[1..])
  }

  lemma {:induction false} StraysJoin(a: seq<Timer>, b: seq<Timer>)
    ensures StraysIn(a + b) == StraysIn(a) + StraysIn(b)
  {
    if a == [] {
      assert a + b == b;
    } else {
      StraysJoin(a[1..], b);
      assert (a + b)[1..] == a[1..] + b;
    }
  }

  lemma StraysSnoc(a: seq<Timer>, t: Timer)
    ensures StraysIn(a + [t]) == StraysIn(a) + if Stray(t) then 1 else 0
  {
    StraysJoin(a, [t]);
    assert StraysIn([t]) == if Stray(t) then 1 else 0;
  }

  lemma {:induction false} NoStrays(ts: seq<Timer>)
    requires forall t :: t in ts ==> !Stray(t)
    ensures StraysIn(ts) == 0
  {
    if ts != [] { NoStrays(ts[1..]); }
  }

  /** One turn of the loop in `_SwitchOthWheel`, on the timers linked from the current one on. A stray is
      appended to the list being walked, so the loop comes to it again, unless nothing was linked behind
      it: then the loop has already read the end of the list. */
  function DrainTurn(chain: seq<Timer>): seq<Timer>
    requires chain != []
  {
    if Stray(chain[0]) && |chain| > 1 then chain[1..] + [chain[0]] else chain[1..]
  }

  function DrainTurns(chain: seq<Timer>, n: nat): seq<Timer>
    decreases n
  {
    if n == 0 || chain == [] then chain else DrainTurns(DrainTurn(chain), n - 1)
  }

  lemma StraysTurn(chain: seq<Timer>)
    requires chain != []
    ensures StraysIn(DrainTurn(chain)) == StraysIn(chain) - if Stray(chain[0]) && |chain| == 1 then 1 else 0
  {
    StraysSnoc(chain[1..], chain[0]);
  }

  lemma {:induction false} StraysCirculate(chain: seq<Timer>, n: nat)
    requires StraysIn(chain) >= 2
    ensures StraysIn(DrainTurns(chain, n)) >= 2
    decreases n
  {
    if n > 0 {
      assert |chain| > 1;
      StraysTurn(chain);
      StraysCirculate(DrainTurn(chain), n - 1);
    }
  }

  /** Turns still to come when there is at most one stray. */
  function TurnsLeft(chain: seq<Timer>): nat {
    2 * |chain| + if chain != [] && Stray(chain[0]) then 1 else 0
  }

  lemma FewerTurns(chain: seq<Timer>)
    requires chain != [] && StraysIn(chain) <= 1
    ensures StraysIn(DrainTurn(chain)) <= 1 && TurnsLeft(DrainTurn(chain)) < TurnsLeft(chain)
  {
    StraysTurn(chain);
    FirstTwo(chain);
  }

  lemma FirstTwo(chain: seq<Timer>)
    ensures |chain| > 1 ==> StraysIn(chain) >= (if Stray(chain[0]) then 1 else 0) + (if Stray(chain[1]) then 1 else 0)
  {
    if |chain| > 1 { assert chain[1..][0] == chain[1]; }
  }

  lemma {:induction false} DrainDone(chain: seq<Timer>, n: nat)
    requires StraysIn(chain) <= 1 && n >= TurnsLeft(chain)
    ensures DrainTurns(chain, n) == []
    decreases n
  {
    if chain != [] {
      FewerTurns(chain);
      DrainDone(DrainTurn(chain), n - 1);
    }
  }

  /** The loop ends if and only if the slot holds at most one stray timer. */
  lemma DrainEnds(chain: seq<Timer>)
    ensures (exists n: nat :: DrainTurns(chain, n) == []) <==> StraysIn(chain) <= 1
  {
    if StraysIn(chain) <= 1 {
      DrainDone(chain, TurnsLeft(chain));
    } else {
      forall n: nat ensures DrainTurns(chain, n) != [] { StraysCirculate(chain, n); }
    }
  }

  // ---- The wheels and the clock ----

  ghost predicate AllNear(w: Wheel, tick: nat) {
    |w| == TV1_SIZE && forall s, t :: 0 <= s < TV1_SIZE && t in w[s] ==> Near(t, s, tick)
  }

  /** A timer whose handler is to run at this very tick. */
  ghost predicate Due(t: Timer, s: nat, tick: nat) {
    t.expiry == tick && s == tick % TV1_SIZE && Entry(t) < tick && !Stray(t)
  }

  /** `AllNear`, but timers due at this very tick are still in their slot. */
  ghost predicate AllNearOrDue(w: Wheel, tick: nat) {
    |w| == TV1_SIZE && forall s, t :: 0 <= s < TV1_SIZE && t in w[s] ==> Near(t, s, tick) || Due(t, s, tick)
  }

  /** Every timer of coarse wheel `k` is well placed, save perhaps those of slot `but`. */
  ghost predicate AllFar(k: nat, w: Wheel, tick: nat, but: int)
    requires 2 <= k <= 4
  {
    |w| == TV_SIZE && forall s, t :: 0 <= s < TV_SIZE && s != but && t in w[s] ==> Far(k, t, s, tick)
  }

  lemma NearLater(w: Wheel, tick: nat)
    requires 0 < tick && AllNear(w, tick - 1)
    ensures AllNearOrDue(w, tick)
  {
    forall s, t | 0 <= s < TV1_SIZE && t in w[s] ensures Near(t, s, tick) || Due(t, s, tick) {
      assert Near(t, s, tick - 1);
    }
  }

  lemma WheelLater(k: nat, w: Wheel, tick: nat)
    requires 2 <= k <= 4 && 0 < tick && AllFar(k, w, tick - 1, -1)
    ensures AllFar(k, w, tick, if tick % SpanOf(k) == 0 then tick / SpanOf(k) % TV_SIZE else -1)
  {
    var but: int := if tick % SpanOf(k) == 0 then tick / SpanOf(k) % TV_SIZE else -1;
    forall s, t | 0 <= s < TV_SIZE && s != but && t in w[s] ensures Far(k, t, s, tick) {
      FarLater(k, t, s, tick);
    }
  }

  lemma FarIsFuture(k: nat, w: Wheel, tick: nat, t: Timer)
    requires 2 <= k <= 4 && AllFar(k, w, tick, -1) && t in Held(w)
    ensures tick < t.expiry
  {
    var s := HeldSlot(w, t);
    assert Far(k, t, s, tick);
  }

  /** A wheel turns exactly when the one below completes a round. */
  lemma Carries(tick: nat)
    ensures tick % SPAN2 == tick % TV1_SIZE
    ensures tick % SPAN3 == 0 <==> tick % SPAN2 == 0 && tick / SPAN2 % TV_SIZE == 0
    ensures tick % SPAN4 == 0 <==> tick % SPAN3 == 0 && tick / SPAN3 % TV_SIZE == 0
  {
    Digits(tick, tick / SPAN2, tick / SPAN2 / TV_SIZE);
    UpperDigits(tick, tick / SPAN3, tick / SPAN3 / TV_SIZE);
    var a, b, c, d := tick % SPAN2, tick / SPAN2 % TV_SIZE, tick % SPAN3, tick / SPAN3 % TV_SIZE;
    assert c == SPAN2 * b + a && tick % SPAN4 == SPAN3 * d + c;
  }

  lemma Digits(tick: nat, q: nat, r: nat)
    requires q == tick / SPAN2 && r == q / TV_SIZE
    ensures tick % SPAN3 == SPAN2 * (q % TV_SIZE) + tick % SPAN2
  {
    assert tick == SPAN3 * r + SPAN2 * (q % TV_SIZE) + tick % SPAN2;
  }

  lemma UpperDigits(tick: nat, q: nat, r: nat)
    requires q == tick / SPAN3 && r == q / TV_SIZE
    ensures tick % SPAN4 == SPAN3 * (q % TV_SIZE) + tick % SPAN3
  {
    assert tick == SPAN4 * r + SPAN3 * (q % TV_SIZE) + tick % SPAN3;
  }

  lemma ClearedFar(k: nat, w: Wheel, tick: nat, s: nat)
    requires 2 <= k <= 4 && s < TV_SIZE && AllFar(k, w, tick, s)
    ensures AllFar(k, w[s := []], tick, -1)
  {
  }

  /** `u` falls due in the slot of `t` before `t` gets there. */
  predicate Blocks(u: Timer, t: Timer) {
    !Stray(u) && u.expiry % TV1_SIZE == t.expiry % TV1_SIZE && Entry(u) < u.expiry <= Entry(t)
  }

  lemma {:induction false} LoggedIsFired(log: seq<Firing>, k: nat)
    requires k < |log|
    ensures log[k].timer in Fired(log)
  {
    if k < |log| - 1 { LoggedIsFired(log[..|log| - 1], k); }
  }

  // ---- What ran, what was lost, what was drained ----

  /** A handler ran at its timer's expiry, for a timer that was neither stray nor dead; if the timer came
      from a slot, that slot is drained since. */
  ghost predicate RanWell(f: Firing, drained: Drained, tick: nat) {
    && f.tick == f.timer.expiry <= tick && !Stray(f.timer) && !Dead(f.timer, drained)
    && (Entry(f.timer) < f.tick ==> f.tick % TV1_SIZE in drained && drained[f.tick % TV1_SIZE] <= f.tick)
  }

  ghost predicate LostWell(t: Timer, drained: Drained) {
    Stray(t) || Dead(t, drained)
  }

  /** This handler call drained slot `s`. */
  ghost predicate Drains(f: Firing, s: nat) {
    f.tick % TV1_SIZE == s && Entry(f.timer) < f.tick
  }

  /** Slot `s` was first drained by a handler call, and holds nothing since. */
  ghost predicate DrainedWell(s: nat, drained: Drained, tv1: Wheel, log: seq<Firing>, tick: nat)
    requires s in drained
  {
    && s < |tv1| && tv1[s] == [] && drained[s] <= tick
    && exists k :: 0 <= k < |log| && log[k].tick == drained[s] && Drains(log[k], s)
  }

  ghost predicate Books(log: seq<Firing>, lost: multiset<Timer>, drained: Drained, stale: set<nat>, tv1: Wheel,
                        tick: nat) {
    && (forall k :: 0 <= k < |log| ==> RanWell(log[k], drained, tick))
    && (forall t :: t in lost ==> LostWell(t, drained))
    && stale == drained.Keys && (forall s {:trigger DrainedWell(s, drained, tv1, log, tick)} :: s in drained ==>
        DrainedWell(s, drained, tv1, log, tick))
  }

  /** What the placement of one timer keeps. */
  lemma BooksAdd(log: seq<Firing>, lost: multiset<Timer>, drained: Drained, stale: set<nat>, tv1: Wheel, tick: nat,
                 p: Place, t: Timer)
    requires Books(log, lost, drained, stale, tv1, tick) && Suits(t, p, tick) && |tv1| == TV1_SIZE
    ensures Books(LogWith(log, p, t, tick), LostWith(lost, stale, p, t), drained, stale, With1(tv1, stale, p, t), tick)
  {
    var log', tv1' := LogWith(log, p, t, tick), With1(tv1, stale, p, t);
    forall s | s in drained ensures DrainedWell(s, drained, tv1', log', tick) {
      DrainedKept(s, drained, tv1, tv1', log, log', tick);
    }
    hide Far, DrainedWell;
    if t in LostWith(lost, stale, p, t) && t !in lost { StaleIsDead(t, p.s, drained, tv1, log, tick); }
  }

  lemma DrainedKept(s: nat, drained: Drained, tv1: Wheel, tv1': Wheel, log: seq<Firing>, log': seq<Firing>, tick: nat)
    requires s in drained && DrainedWell(s, drained, tv1, log, tick) && log <= log' && s < |tv1'| && tv1'[s] == tv1[s]
    ensures DrainedWell(s, drained, tv1', log', tick)
  {
    var k :| 0 <= k < |log| && log[k].tick == drained[s] && Drains(log[k], s);
    assert log'[k] == log[k];
  }

  lemma StaleIsDead(t: Timer, s: nat, drained: Drained, tv1: Wheel, log: seq<Firing>, tick: nat)
    requires Near(t, s, tick) && Entry(t) == tick && s in drained && DrainedWell(s, drained, tv1, log, tick)
    ensures Dead(t, drained)
  {
  }

  /** The slot drained first at this tick: no verdict on other timers changes. */
  lemma BooksDrain(log: seq<Firing>, lost: multiset<Timer>, drained: Drained, tick: nat, s: nat)
    requires (forall k :: 0 <= k < |log| ==> RanWell(log[k], drained, tick))
    requires (forall t :: t in lost ==> LostWell(t, drained))
    requires s !in drained
    ensures forall k :: 0 <= k < |log| ==> RanWell(log[k], drained[s := tick], tick)
    ensures forall t :: t in lost ==> LostWell(t, drained[s := tick])
  {
    forall k | 0 <= k < |log|
      ensures RanWell(log[k], drained[s := tick], tick)
    {
      RanWellLater(log[k], drained, tick, s);
    }
  }

  lemma RanWellLater(f: Firing, drained: Drained, tick: nat, s: nat)
    requires RanWell(f, drained, tick) && s !in drained
    ensures RanWell(f, drained[s := tick], tick)
  {
  }

  /** Slots stay drained, and those drained later are drained after `tick`. */
  ghost predicate KeepsDrains(before: Drained, after: Drained, tick: nat) {
    && (forall s :: s in before ==> s in after && after[s] == before[s])
    && (forall s :: s in after ==> s in before || after[s] > tick)
  }

  /** Whether a timer is dead is settled when it reaches the first wheel. */
  lemma DeadSettled(t: Timer, before: Drained, after: Drained, tick: nat)
    requires KeepsDrains(before, after, tick) && Entry(t) <= tick
    ensures Dead(t, before) <==> Dead(t, after)
  {
  }

  // ---- Which slots of the top wheel hang the drain ----

  /** When slot `s` of the top wheel is drained next. */
  function TurnOf(tick: nat, s: nat): (n: nat)
    requires s < TV_SIZE
    ensures n > tick
  {
    NextTurn(tick / SPAN4, s) * SPAN4
  }

  predicate TurnsAt(tick: nat, s: nat) {
    tick % SPAN4 == 0 && s == tick / SPAN4 % TV_SIZE
  }

  lemma TurnComes(t0: nat, tick: nat, s: nat)
    requires s < TV_SIZE && t0 < tick <= TurnOf(t0, s)
    ensures TurnOf(t0, s) == tick <==> TurnsAt(tick, s)
  {
    var q := NextTurn(t0 / SPAN4, s);
    if TurnsAt(tick, s) {
      var m := tick / SPAN4;
      assert m * SPAN4 == tick && t0 / SPAN4 < m <= q;
    }
  }

  /** Two stray timers in the slot drained at this tick. */
  ghost predicate HangsAt(w: Wheel, tick: nat)
    requires |w| == TV_SIZE
  {
    tick % SPAN4 == 0 && StraysIn(w[tick / SPAN4 % TV_SIZE]) >= 2
  }

  /** Some slot that is drained by `tick` holds two stray timers. */
  ghost predicate HangsBy(w: Wheel, t0: nat, tick: nat) {
    |w| == TV_SIZE && exists s :: 0 <= s < TV_SIZE && TurnOf(t0, s) <= tick && StraysIn(w[s]) >= 2
  }

  /** A slot's strays leave it when it is drained, and only then. */
  ghost predicate StraysAfter(w: Wheel, w': Wheel, tick: nat) {
    |w'| == |w| == TV_SIZE && forall s :: 0 <= s < TV_SIZE ==> StraysIn(w'[s]) == if TurnsAt(tick, s) then 0
        else StraysIn(w[s])
  }

  ghost predicate SameStrays(w: Wheel, w': Wheel) {
    |w'| == |w| == TV_SIZE && forall s :: 0 <= s < TV_SIZE ==> StraysIn(w'[s]) == StraysIn(w[s])
  }

  lemma WithStrays(w: Wheel, p: Place, t: Timer, s: nat)
    requires s < |w| && (p.Slot? && p.wheel == 4 ==> p.s < |w|)
    ensures StraysIn(With(4, w, p, t)[s]) == StraysIn(w[s]) + if p == Slot(4, s) && Stray(t) then 1 else 0
  {
    StraysSnoc(w[s], t);
  }

  /** Expiries more than 2^31 - 1 ticks ahead do not fit the `int` of `_AddTimer`. */
  const INT_LIMIT := 0x8000_0000

  class TimerWheel {
    var tv1: Wheel
    var tv2: Wheel
    var tv3: Wheel
    var tv4: Wheel
    var tv5: Wheel
    var stale: set<nat>        // slots of tv1 whose head is null while the tail points to a freed timer
    var tick: nat
    var log: seq<Firing>       // handler calls made so far
    var nextId: nat
    ghost var added: set<Timer>
    ghost var lost: multiset<Timer>   // timers no list leads to any more
    ghost var drained: Drained

    constructor (now: nat)
      ensures Valid() && tick == now && added == {} && log == [] && drained == map[] && nextId == 0
      ensures forall s :: 0 <= s < TV_SIZE ==> StraysIn(tv4[s]) == 0
    {
      tv1 := seq(TV1_SIZE, _ => []);
      tv2, tv3, tv4, tv5 := seq(TV_SIZE, _ => []), seq(TV_SIZE, _ => []), seq(TV_SIZE, _ => []), seq(TV_SIZE, _ => []);
      stale, tick, log, nextId, added, lost, drained := {}, now, [], 0, {}, multiset{}, map[];
      new;
      EmptyHoldsNothing(tv1);
      EmptyHoldsNothing(tv2);
    }

    /** How often `t` is pending, has fired or is lost. */
    ghost function Count(t: Timer): nat
      reads this
    {
      Tally(tv1, tv2, tv3, tv4, log, lost, t)
    }

    /** Every timer ever added is pending, has fired or is lost, once. */
    ghost predicate Accounted()
      reads this
    {
      && (forall t :: Count(t) == if t in added then 1 else 0)
      && (forall t :: t in added ==> t.id < nextId && t.born < t.expiry)
    }

    ghost predicate InBooks()
      reads this
    {
      Books(log, lost, drained, stale, tv1, tick)
    }

    ghost predicate Tv5Empty()
      reads this
    {
      |tv5| == TV_SIZE && forall s :: 0 <= s < TV_SIZE ==> tv5[s] == []
    }

    ghost predicate Settled()
      reads this
    {
      AllNear(tv1, tick) && AllFar(2, tv2, tick, -1) && AllFar(3, tv3, tick, -1) && AllFar(4, tv4, tick, -1)
    }

    ghost predicate Valid()
      reads this
    {
      Settled() && Tv5Empty() && Accounted() && InBooks()
    }

    /** `AddTimerList` on the chosen slot, or the handler at once. In a stale slot the timer is linked
        behind one that is freed already. */
    method Add(timer: Timer)
      requires |tv1| == TV1_SIZE && |tv2| == |tv3| == |tv4| == TV_SIZE
      modifies `tv1, `tv2, `tv3, `tv4, `log, `lost
      ensures var p := PlaceOf(tick, timer.expiry);
        && tv1 == With1(old(tv1), stale, p, timer) && tv2 == With(2, old(tv2), p, timer)
        && tv3 == With(3, old(tv3), p, timer) && tv4 == With(4, old(tv4), p, timer)
        && log == LogWith(old(log), p, timer, tick) && lost == LostWith(old(lost), stale, p, timer)
      ensures forall u :: Count(u) == old(Count(u)) + if u == timer then 1 else 0
    {
      forall u ensures var p := PlaceOf(tick, timer.expiry);
        Tally(With1(tv1, stale, p, timer), With(2, tv2, p, timer), With(3, tv3, p, timer), With(4, tv4, p, timer),
            LogWith(log, p, timer, tick), LostWith(lost, stale, p, timer), u)
          == Count(u) + if u == timer then 1 else 0
      {
        AddAccounts(tv1, tv2, tv3, tv4, log, lost, stale, tick, timer, u);
      }
      hide Tally;
      var idx := timer.expiry - tick;
      if idx <= 0 {
        log := log + [Firing(timer, tick)];
      } else if idx < SPAN2 {
        var s := timer.expiry % TV1_SIZE;
        if s in stale {
          lost := lost + multiset{timer};
        } else {
          tv1 := tv1[s := tv1[s] + [timer]];
        }
      } else if idx < SPAN3 {
        var s := timer.expiry / SPAN2 % TV_SIZE;
        tv2 := tv2[s := tv2[s] + [timer]];
      } else if idx < SPAN4 {
        var s := timer.expiry / SPAN3 % TV_SIZE;
        tv3 := tv3[s := tv3[s] + [timer]];
      } else if idx < SPAN5 {
        var s := timer.expiry / SPAN4 % TV_SIZE;
        tv4 := tv4[s := tv4[s] + [timer]];
      } else {
        var s := timer.expiry / SPAN5 % TV_SIZE;
        tv4 := tv4[s := tv4[s] + [timer]];
      }
    }

    /** What the placement of one timer keeps, whatever wheel it goes to. */
    lemma AddKeeps(p: Place, timer: Timer, b2: int, b3: int, b4: int)
      requires Suits(timer, p, tick) && AllFar(2, tv2, tick, b2)
      ensures AllFar(2, With(2, tv2, p, timer), tick, b2)
      ensures AllFar(3, tv3, tick, b3) ==> AllFar(3, With(3, tv3, p, timer), tick, b3)
      ensures AllFar(4, tv4, tick, b4) ==> AllFar(4, With(4, tv4, p, timer), tick, b4)
      ensures AllNearOrDue(tv1, tick) ==> AllNearOrDue(With1(tv1, stale, p, timer), tick)
      ensures AllNear(tv1, tick) ==> AllNear(With1(tv1, stale, p, timer), tick)
      ensures |tv4| == TV_SIZE && !(p.Slot? && p.wheel == 4 && Stray(timer)) ==> SameStrays(tv4, With(4, tv4, p, timer))
    {
      WithFar(2, tv2, p, timer, tick, b2);
      if AllFar(3, tv3, tick, b3) { WithFar(3, tv3, p, timer, tick, b3); }
      if AllFar(4, tv4, tick, b4) { WithFar(4, tv4, p, timer, tick, b4); }
      WithNear(tv1, stale, p, timer, tick);
      if |tv4| == TV_SIZE {
        forall s | 0 <= s < TV_SIZE
          ensures StraysIn(With(4, tv4, p, timer)[s])
               == StraysIn(tv4[s]) + if p == Slot(4, s) && Stray(timer) then 1 else 0
        {
          WithStrays(tv4, p, timer, s);
        }
      }
    }

    /** A timer still to come finds its place and nothing else moves. */
    method AddNew(timer: Timer)
      requires Settled() && InBooks() && timer.born == tick < timer.expiry
      modifies `tv1, `tv2, `tv3, `tv4, `log, `lost
      ensures Settled() && InBooks() && log == old(log)
      ensures tv4 == With(4, old(tv4), PlaceOf(tick, timer.expiry), timer)
      ensures forall u :: Count(u) == old(Count(u)) + if u == timer then 1 else 0
    {
      hide Tally, Far, Near, Held, NextTurn, Books;
      PlacedWell(timer);
      var p := PlaceOf(tick, timer.expiry);
      AddKeeps(p, timer, -1, -1, -1);
      BooksAdd(log, lost, drained, stale, tv1, tick, p, timer);
      Add(timer);
    }

    /** `AddTimer` for a one-shot timer; a zero timeout is refused. */
    method AddTimer(timeout: nat) returns (timer: Option<Timer>)
      requires Valid() && timeout < INT_LIMIT
      modifies this
      ensures Valid() && tick == old(tick) && log == old(log) && drained == old(drained) && stale == old(stale)
      ensures timeout < 1 ==> timer == None && added == old(added)
      ensures timeout >= 1 ==> timer == Some(Timer(old(nextId), tick, tick + timeout))
                               && timer.value !in old(added) && added == old(added) + {timer.value}
      ensures 1 <= timeout < TV1_SIZE ==> (Dead(timer.value, drained) <==> (tick + timeout) % TV1_SIZE in stale)
      ensures forall s :: 0 <= s < TV_SIZE ==> StraysIn(tv4[s]) == StraysIn(old(tv4)[s]) + StrayAt(timer, s)
    {
      hide Tally, NextTurn, AllNear, AllFar, Books, Near;
      if timeout < 1 { return None; }
      var t := Timer(nextId, tick, tick + timeout);
      FreshTimer(t);
      TopWheelSize();
      if timeout < TV1_SIZE { DeadAtOnce(t); }
      AddNew(t);
      NewStray(old(tv4), t);
      nextId := nextId + 1;
      added := added + {t};
      return Some(t);
    }

    lemma DeadAtOnce(t: Timer)
      requires InBooks() && t.born == tick && 0 < t.expiry - tick < TV1_SIZE
      ensures Dead(t, drained) <==> t.expiry % TV1_SIZE in stale
    {
      var s := t.expiry % TV1_SIZE;
      if s in drained { assert DrainedWell(s, drained, tv1, log, tick); }
    }

    /** The slots of coarse wheel `k`. */
    function W(k: nat): Wheel
      requires 2 <= k <= 4
      reads this
    {
      if k == 2 then tv2 else if k == 3 then tv3 else tv4
    }

    /** Wheels below `k` are right for this tick, and wheel `k` except its slot `but`. */
    ghost predicate RightUpTo(k: nat, but: int)
      requires 2 <= k <= 4
      reads this
    {
      && AllNearOrDue(tv1, tick)
      && AllFar(2, tv2, tick, if k == 2 then but else -1)
      && (k >= 3 ==> AllFar(3, tv3, tick, if k == 3 then but else -1))
      && (k >= 4 ==> AllFar(4, tv4, tick, but))
    }

    /** One timer of the slot goes where it now belongs; the slot itself gets nothing. */
    method AddAgain(node: Timer, k: nat, s: nat)
      requires 2 <= k <= 4 && s < TV_SIZE && RightUpTo(k, s) && InBooks() && |tv3| == |tv4| == TV_SIZE
      requires Descends(k, node, s, tick)
      modifies `tv1, `tv2, `tv3, `tv4, `log, `lost
      ensures RightUpTo(k, s) && InBooks() && |tv3| == |tv4| == TV_SIZE && W(k)[s] == old(W(k)[s])
      ensures (k < 3 ==> tv3 == old(tv3)) && (k < 4 ==> tv4 == old(tv4)) && SameStrays(old(tv4), tv4)
      ensures forall u :: Count(u) == old(Count(u)) + if u == node then 1 else 0
    {
      hide Tally, Books, Far, AllFar, AllNear, AllNearOrDue, StraysIn, Near;
      var p := PlaceOf(tick, node.expiry);
      AddKeeps(p, node, if k == 2 then s else -1, if k == 3 then s else -1, if k == 4 then s else -1);
      BooksAdd(log, lost, drained, stale, tv1, tick, p, node);
      Add(node);
    }

    /** A timer of the slot being drained goes elsewhere or comes back. */
    ghost predicate Drainable(k: nat, t: Timer, s: nat)
      requires 2 <= k <= 4
      reads this
    {
      if Stray(t) then ComesBack(k, t, s, tick) else Descends(k, t, s, tick)
    }

    /** What a turn of the drain does to the wheel. */
    method DrainOne(chain: seq<Timer>, k: nat, s: nat)
      requires 2 <= k <= 4 && s < TV_SIZE && RightUpTo(k, s) && InBooks() && |tv3| == |tv4| == TV_SIZE
      requires chain != [] && Drainable(k, chain[0], s)
      modifies `tv1, `tv2, `tv3, `tv4, `log, `lost
      ensures RightUpTo(k, s) && InBooks() && |tv3| == |tv4| == TV_SIZE && W(k)[s] == old(W(k)[s])
      ensures (k < 3 ==> tv3 == old(tv3)) && (k < 4 ==> tv4 == old(tv4)) && SameStrays(old(tv4), tv4)
      ensures forall u :: Count(u) == old(Count(u)) + Leaves(chain, u)
    {
      hide Tally, Far, Near, Descends, ComesBack, PlaceOf, Stray, AllNearOrDue, AllFar, Books, StraysIn;
      var node := chain[0];
      if !Stray(node) {
        AddAgain(node, k, s);
      } else if |chain| == 1 {
        LoseStray(node);
      }
    }

    /** `_SwitchOthWheel`: every timer of the slot is placed again, then the slot is emptied. With two
        stray timers in the slot the loop goes round for ever (`DrainEnds`), and this call reports it. */
    method SwitchWheel(k: nat, s: nat) returns (hangs: bool)
      requires 2 <= k <= 4 && s < TV_SIZE && RightUpTo(k, s) && InBooks() && |tv3| == |tv4| == TV_SIZE
      requires forall t :: t in W(k)[s] ==> Drainable(k, t, s)
      modifies `tv1, `tv2, `tv3, `tv4, `log, `lost
      ensures hangs <==> StraysIn(old(W(k)[s])) >= 2
      ensures !hangs ==> RightUpTo(k, -1) && InBooks()
      ensures !hangs ==> (k < 3 ==> tv3 == old(tv3)) && (k < 4 ==> tv4 == old(tv4))
      ensures !hangs ==> k == 4 ==> SlotCleared(old(tv4), tv4, s)
      ensures !hangs ==> forall u :: Count(u) == old(Count(u))
    {
      hide Tally, Far, Near, Descends, ComesBack, PlaceOf, Held, NextTurn, Stray, AllNearOrDue, Books, StraysIn,
          TurnsLeft;
      var nodes := W(k)[s];
      hangs := StraysIn(nodes) >= 2;
      if hangs { return; }
      var chain := nodes;
      while chain != []
        invariant RightUpTo(k, s) && InBooks() && |tv3| == |tv4| == TV_SIZE && StraysIn(chain) <= 1
        invariant W(k)[s] == nodes && forall t :: t in chain ==> Drainable(k, t, s)
        invariant (k < 3 ==> tv3 == old(tv3)) && (k < 4 ==> tv4 == old(tv4)) && SameStrays(old(tv4), tv4)
        invariant forall u :: Count(u) + multiset(chain)[u] == old(Count(u)) + multiset(nodes)[u]
        decreases TurnsLeft(chain)
      {
        FewerTurns(chain);
        TurnHolds(chain);
        DrainOne(chain, k, s);
        chain := DrainTurn(chain);
      }
      ClearedFar(k, W(k), tick, s);
      ClearSlot(k, s);
      assert k == 4 ==> SlotCleared(old(tv4), tv4, s) by { assert StraysIn([]) == 0 by { NoStrays([]); } }
    }

    /** The stray is the last of the list: it is linked to itself and the list is then cleared. */
    ghost method LoseStray(node: Timer)
      requires Stray(node) && InBooks()
      modifies `lost
      ensures InBooks()
      ensures forall u :: Count(u) == old(Count(u)) + if u == node then 1 else 0
    {
      lost := lost + multiset{node};
    }

    method ClearSlot(k: nat, s: nat)
      requires 2 <= k <= 4 && s < |W(k)|
      modifies `tv2, `tv3, `tv4
      ensures tv2 == if k == 2 then old(tv2)[s := []] else old(tv2)
      ensures tv3 == if k == 3 then old(tv3)[s := []] else old(tv3)
      ensures tv4 == if k == 4 then old(tv4)[s := []] else old(tv4)
      ensures forall u :: Count(u) == old(Count(u)) - multiset(old(W(k)[s]))[u]
    {
      forall u ensures Held(W(k)[s := []])[u] + multiset(W(k)[s])[u] == Held(W(k))[u] {
        HeldCleared(W(k), s, u);
      }
      if k == 2 {
        tv2 := tv2[s := []];
      } else if k == 3 {
        tv3 := tv3[s := []];
      } else {
        tv4 := tv4[s := []];
      }
    }

    /** A timer with the next identity has never been added. */
    lemma FreshTimer(t: Timer)
      requires Accounted() && t.id == nextId
      ensures t !in added && Count(t) == 0
    {
    }

    /** The state just after the clock has moved to `tick`, before any cascade. */
    ghost predicate Advanced()
      reads this
    {
      && 0 < tick && AllNearOrDue(tv1, tick) && Tv5Empty() && InBooks()
      && AllFar(2, tv2, tick - 1, -1) && AllFar(3, tv3, tick - 1, -1) && AllFar(4, tv4, tick - 1, -1)
    }

    lemma SlotDrainable(k: nat, s: nat)
      requires 2 <= k <= 4 && 0 < tick && tick % SpanOf(k) == 0 && s == tick / SpanOf(k) % TV_SIZE
      requires AllFar(k, W(k), tick - 1, -1)
      ensures forall t :: t in W(k)[s] ==> Drainable(k, t, s)
      ensures k < 4 ==> StraysIn(W(k)[s]) == 0
    {
      forall t | t in W(k)[s] ensures Drainable(k, t, s) && (k < 4 ==> !Stray(t)) {
        assert Far(k, t, s, tick - 1);
        CascadeDown(k, t, s, tick);
      }
      if k < 4 { NoStrays(W(k)[s]); }
    }

    /** `SwitchOthWheel`: the carry of the clock decides how many wheels turn. */
    method SwitchOthWheel() returns (hangs: bool)
      requires Advanced()
      modifies `tv1, `tv2, `tv3, `tv4, `log, `lost
      ensures hangs <==> HangsAt(old(tv4), tick)
      ensures !hangs ==> AllNearOrDue(tv1, tick) && InBooks() && AllFar(2, tv2, tick, -1)
      ensures !hangs ==> AllFar(3, tv3, tick, -1) && AllFar(4, tv4, tick, -1)
      ensures !hangs ==> StraysAfter(old(tv4), tv4, tick)
      ensures !hangs ==> forall u :: Count(u) == old(Count(u))
    {
      hide Books, Tally, StraysIn, Far, Near, Stray;
      Carries(tick);
      WheelLater(2, tv2, tick);
      WheelLater(3, tv3, tick);
      WheelLater(4, tv4, tick);
      var index := tick % TV1_SIZE;
      if index != 0 { return false; }
      index := tick / SPAN2 % TV_SIZE;
      SlotDrainable(2, index);
      hangs := SwitchWheel(2, index);
      if index == 0 { hangs := SwitchUpperWheels(); }
    }

    /** The same function from the third wheel on. */
    method SwitchUpperWheels() returns (hangs: bool)
      requires 0 < tick && tick % SPAN3 == 0 && AllNearOrDue(tv1, tick) && Tv5Empty() && InBooks()
      requires AllFar(2, tv2, tick, -1) && AllFar(3, tv3, tick - 1, -1) && AllFar(4, tv4, tick - 1, -1)
      modifies `tv1, `tv2, `tv3, `tv4, `log, `lost
      ensures hangs <==> HangsAt(old(tv4), tick)
      ensures !hangs ==> AllNearOrDue(tv1, tick) && InBooks() && AllFar(2, tv2, tick, -1)
      ensures !hangs ==> AllFar(3, tv3, tick, -1) && AllFar(4, tv4, tick, -1)
      ensures !hangs ==> StraysAfter(old(tv4), tv4, tick)
      ensures !hangs ==> forall u :: Count(u) == old(Count(u))
    {
      hide Books, Tally, StraysIn, Far, Near, Stray, Held;
      Carries(tick);
      WheelLater(3, tv3, tick);
      WheelLater(4, tv4, tick);
      var index := tick / SPAN3 % TV_SIZE;
      SlotDrainable(3, index);
      hangs := SwitchWheel(3, index);
      if index != 0 { return; }
      index := tick / SPAN4 % TV_SIZE;
      SlotDrainable(4, index);
      hangs := SwitchWheel(4, index);
      if hangs || index != 0 { return; }
      index := tick / SPAN5 % TV_SIZE;
      assert tv5[index] == [];
    }

    /** The handlers of the current slot run, and the head of the slot is cleared but not its tail: the
        slot is stale from now on. */
    method FireDue()
      requires AllNearOrDue(tv1, tick) && InBooks()
      modifies `tv1, `log, `stale, `drained
      ensures AllNear(tv1, tick) && InBooks()
      ensures var idx := tick % TV1_SIZE;
        && drained == (if old(tv1)[idx] == [] then old(drained) else old(drained)[idx := tick])
        && (old(tv1)[idx] != [] ==> idx !in old(drained))
      ensures forall u :: Count(u) == old(Count(u))
    {
      hide NextTurn, Far, Fired, Books, Tally;
      var idx := tick % TV1_SIZE;
      var nodes := tv1[idx];
      DueOnly(tv1, tick);
      if nodes != [] {
        BooksFire(log, lost, drained, stale, tv1, tick);
        FireAccounts(tv1, tv2, tv3, tv4, log, lost, tick);
        RunHandlers(nodes);
        tv1 := tv1[idx := []];
        stale := stale + {idx};
        drained := drained[idx := tick];
      }
    }

    method RunHandlers(nodes: seq<Timer>)
      modifies `log
      ensures log == old(log) + Firings(nodes, tick)
    {
      var n := 0;
      while n < |nodes|
        invariant n <= |nodes| && log == old(log) + Firings(nodes[..n], tick)
      {
        var node := nodes[n];
        assert Firings(nodes[..n + 1], tick) == Firings(nodes[..n], tick) + [Firing(node, tick)];
        log := log + [Firing(node, tick)];
        n := n + 1;
      }
      assert nodes[..n] == nodes;
    }

    /** One turn of the loop of `Tick`. */
    method Step() returns (hangs: bool)
      requires Valid()
      modifies `tick, `tv1, `tv2, `tv3, `tv4, `log, `lost, `stale, `drained
      ensures hangs <==> HangsAt(old(tv4), old(tick) + 1)
      ensures !hangs ==> Valid() && tick == old(tick) + 1
      ensures !hangs ==> StraysAfter(old(tv4), tv4, tick) && KeepsDrains(old(drained), drained, old(tick))
    {
      hide Tally, Far, Near, Held, NextTurn, StraysIn, Stray, Dead, DrainedWell;
      NearLater(tv1, tick + 1);
      BooksLater(log, lost, drained, stale, tv1, tick);
      hide Books;
      tick := tick + 1;
      hangs := SwitchOthWheel();
      if hangs { return; }
      FireDue();
    }

    /** `Tick`: the clock catches up with `now`, one step at a time. It never returns if and only if one
        of the slots of the top wheel that come round by then holds two stray timers. */
    method Tick(now: nat) returns (hangs: bool)
      requires Valid()
      modifies this
      ensures hangs <==> HangsBy(old(tv4), old(tick), now + 1)
      ensures !hangs ==> Valid() && added == old(added) && nextId == old(nextId)
      ensures !hangs ==> tick == if old(tick) > now then old(tick) else now + 1
      ensures !hangs ==> KeepsDrains(old(drained), drained, old(tick)) && Drawn(old(tv4), tv4, old(tick), tick)
    {
      hide StraysIn, TurnOf, Drawn, KeepsDrains, HangsAt, StraysAfter, HangsBy, Valid;
      TopWheelSize();
      DrawnAtFirst(tv4, tick, now + 1);
      KeepsItself(drained, tick);
      if tick > now { return false; }
      while tick <= now
        invariant Valid() && added == old(added) && nextId == old(nextId)
        invariant old(tick) <= tick <= now + 1 && KeepsDrains(old(drained), drained, old(tick))
        invariant Drawn(old(tv4), tv4, old(tick), tick)
      {
        ghost var w, d, t0 := tv4, drained, tick;
        hangs := Step();
        StepDraws(old(tv4), w, tv4, old(tick), t0 + 1, hangs, now + 1);
        if hangs {
          return;
        }
        KeepsTwice(old(drained), d, drained, old(tick), t0);
      }
      DrawnFully(old(tv4), tv4, old(tick), tick);
      hangs := false;
    }

    lemma TopWheelSize()
      requires Valid()
      ensures |tv4| == TV_SIZE
    {
    }

    /** Nothing pending is due or overdue. */
    lemma PendingIsFuture(t: Timer)
      requires Settled()
      ensures t in Held(tv1) || t in Held(tv2) || t in Held(tv3) || t in Held(tv4) ==> tick < t.expiry
    {
      if t in Held(tv1) {
        var s := HeldSlot(tv1, t);
        assert Near(t, s, tick);
      } else if t in Held(tv2) {
        FarIsFuture(2, tv2, tick, t);
      } else if t in Held(tv3) {
        FarIsFuture(3, tv3, tick, t);
      } else if t in Held(tv4) {
        FarIsFuture(4, tv4, tick, t);
      }
    }

    /** Once its expiry has come, a timer has fired exactly once if it is neither stray nor dead, and
        otherwise not at all. */
    lemma FiredUnlessDead(t: Timer)
      requires Valid() && t in added
      ensures Fired(log)[t] == if t.expiry <= tick && !Stray(t) && !Dead(t, drained) then 1 else 0
      ensures Fired(log)[t] == 1 ==> exists k :: 0 <= k < |log| && log[k] == Firing(t, t.expiry)
    {
      assert Count(t) == 1;
      PendingIsFuture(t);
      if t in lost { assert LostWell(t, drained); }
      if t in Fired(log) {
        var k := FiredWitness(log, t);
        assert RanWell(log[k], drained, tick);
        assert log[k] == Firing(t, t.expiry);
      }
    }

    /** Among the timers added there is one, not stray, that falls due in the same slot no later than `t`
        reaches it. Ids, times of adding and expiries are all this looks at. */
    ghost predicate Blocked(t: Timer)
      reads this
    {
      Entry(t) < t.expiry && exists u :: u in added && Blocks(u, t)
    }

    /** Dead in terms of what was added: it matters only who is to come before, not whether that one is
        served itself. */
    lemma DeadIsBlocked(t: Timer)
      requires Valid() && Entry(t) <= tick
      ensures Dead(t, drained) <==> Blocked(t)
    {
      hide Settled, Accounted, Fired;
      DeadMeans(t);
      if Dead(t, drained) {
        var k :| 0 <= k < |log| && Drains(log[k], t.expiry % TV1_SIZE) && log[k].tick <= Entry(t);
        LoggedIsAdded(k);
        assert RanWell(log[k], drained, tick) && Blocks(log[k].timer, t);
      }
      if Blocked(t) {
        var u :| u in added && Blocks(u, t);
        if !Dead(u, drained) {
          FiredUnlessDead(u);
          FiredIsDrained(u);
        }
      }
    }

    lemma LoggedIsAdded(k: nat)
      requires Valid() && k < |log|
      ensures log[k].timer in added
    {
      LoggedIsFired(log, k);
      assert Count(log[k].timer) >= 1;
    }

    /** In every reachable state: once its expiry has come, a timer has fired exactly once, at the tick
        equal to its expiry, if and only if it was set serviceably and no other timer that was so set fell
        due in its slot before it reached the first wheel; otherwise it has not fired. */
    lemma ExactlyOnceOnTime(t: Timer)
      requires Valid() && t in added
      ensures Fired(log)[t] == if t.expiry <= tick && !Stray(t) && !Blocked(t) then 1 else 0
      ensures Fired(log)[t] == 1 ==> exists k :: 0 <= k < |log| && log[k] == Firing(t, t.expiry)
    {
      hide Settled, Fired;
      FiredUnlessDead(t);
      if t.expiry <= tick {
        assert t.born < t.expiry;
        DeadIsBlocked(t);
      }
    }

    lemma FiredIsDrained(t: Timer)
      requires Valid() && t in Fired(log) && Entry(t) < t.expiry
      ensures t.expiry % TV1_SIZE in stale && t.expiry % TV1_SIZE in drained && drained[t.expiry % TV1_SIZE] <= t.expiry
    {
      var k := FiredWitness(log, t);
      assert RanWell(log[k], drained, tick);
    }

    /** A timer that shares its slot with no other is served. */
    lemma AloneIsServed(t: Timer)
      requires Valid() && t in added && !Stray(t) && t.expiry <= tick
      requires forall u :: u in added && u != t ==> u.expiry % TV1_SIZE != t.expiry % TV1_SIZE
      ensures Fired(log)[t] == 1
    {
      ExactlyOnceOnTime(t);
    }

    /** Dead in terms of handler calls: an earlier timer fired from the slot before this one reached it. */
    lemma DeadMeans(t: Timer)
      requires Valid()
      ensures Dead(t, drained) <==>
        && Entry(t) < t.expiry
        && exists k :: 0 <= k < |log| && Drains(log[k], t.expiry % TV1_SIZE) && log[k].tick <= Entry(t)
    {
      var s := t.expiry % TV1_SIZE;
      if s in drained { assert DrainedWell(s, drained, tv1, log, tick); }
      if k :| 0 <= k < |log| && Drains(log[k], s) && log[k].tick <= Entry(t) { assert RanWell(log[k], drained, tick); }
    }
  }

  // ---- Runs that go wrong ----

  /** A timer of 1 set at time `now` fires. */
  method FireFirst(now: nat) returns (w: TimerWheel, first: Timer)
    ensures fresh(w) && w.Valid() && w.tick == now + 2 && first == Timer(0, now, now + 1) && first in w.added
    ensures Entry(first) == now && !Dead(first, w.drained) && (now + 1) % TV1_SIZE in w.stale
    ensures forall s :: 0 <= s < TV_SIZE ==> StraysIn(w.tv4[s]) == 0
  {
    hide StraysIn, Fired, TimerWheel.Settled, TimerWheel.Accounted, Tally, Books;
    w := new TimerWheel(now);
    var a := w.AddTimer(1);
    first := a.value;
    ghost var w0 := w.tv4;
    var h := w.Tick(now + 1);
    StillNoStrays(w0, w.tv4, now, w.tick);
    w.FiredUnlessDead(first);
    w.FiredIsDrained(first);
  }

  /** A slot that has fired once is dead: of two timers due in the same slot, one after the other, the
      second never fires. */
  method SlotDiesAfterFiring(now: nat, later: nat) returns (w: TimerWheel, first: Timer, second: Timer)
    requires later >= now + 257
    ensures fresh(w) && w.Valid() && w.tick > second.expiry == now + 257 && second in w.added
    ensures first.expiry == now + 1 && Fired(w.log)[first] == 1 && Fired(w.log)[second] == 0
  {
    hide StraysIn, Fired, TimerWheel.Settled, TimerWheel.Accounted, Tally, Books;
    w, first := FireFirst(now);
    var b := w.AddTimer(255);
    second := b.value;
    ghost var d := w.drained;
    var h := w.Tick(later);
    DeadSettled(second, d, w.drained, now + 2);
    w.FiredUnlessDead(second);
    w.FiredUnlessDead(first);
  }

  /** Two timers of 2^27 set at the same time hang the wheel, long before they are due. */
  method TwoFarTimersHang() returns (hangs: bool)
    ensures hangs
  {
    hide StraysIn, Stray, TurnOf, StrayAt, TimerWheel.Settled, TimerWheel.Accounted, Books;
    var w := new TimerWheel(0);
    var a := w.AddTimer(134217728);
    FarExample(a.value);
    var b := w.AddTimer(134217728);
    FarExample(b.value);
    hangs := w.Tick(2097152);
  }

  lemma FarExample(t: Timer)
    requires t.born == 0 && t.expiry == 134217728
    ensures StrayAt(Some(t), 2) == 1 && TurnOf(0, 2) == 2097152
  {
  }

  // ---- Bookkeeping ----

  /** The clock has moved from `t0` to `tick`: the slots that came round are free of strays. */
  ghost predicate Drawn(w0: Wheel, w: Wheel, t0: nat, tick: nat) {
    |w0| == |w| == TV_SIZE && forall s {:trigger DrawnSlot(w0, w, t0, tick, s)} :: 0 <= s < TV_SIZE ==>
        DrawnSlot(w0, w, t0, tick, s)
  }

  ghost predicate DrawnSlot(w0: Wheel, w: Wheel, t0: nat, tick: nat, s: nat)
    requires s < |w0| == |w| == TV_SIZE
  {
    if TurnOf(t0, s) <= tick then StraysIn(w[s]) == 0 && StraysIn(w0[s]) <= 1 else StraysIn(w[s]) == StraysIn(w0[s])
  }

  lemma DrawnAtFirst(w: Wheel, t0: nat, tick: nat)
    requires |w| == TV_SIZE
    ensures Drawn(w, w, t0, t0) && (tick <= t0 ==> !HangsBy(w, t0, tick))
  {
  }

  lemma StillNoStrays(w0: Wheel, w: Wheel, t0: nat, tick: nat)
    requires Drawn(w0, w, t0, tick) && forall s :: 0 <= s < TV_SIZE ==> StraysIn(w0[s]) == 0
    ensures forall s :: 0 <= s < TV_SIZE ==> StraysIn(w[s]) == 0
  {
    hide TurnOf, StraysIn;
    forall s | 0 <= s < TV_SIZE ensures StraysIn(w[s]) == 0 {
      assert DrawnSlot(w0, w, t0, tick, s);
    }
  }

  lemma DrawnFully(w0: Wheel, w: Wheel, t0: nat, tick: nat)
    requires Drawn(w0, w, t0, tick)
    ensures !HangsBy(w0, t0, tick)
  {
    hide TurnOf, StraysIn;
    forall s | 0 <= s < TV_SIZE && TurnOf(t0, s) <= tick ensures StraysIn(w0[s]) <= 1 {
      assert DrawnSlot(w0, w, t0, tick, s);
    }
  }

  lemma StepDraws(w0: Wheel, w: Wheel, w': Wheel, t0: nat, tick: nat, hangs: bool, end: nat)
    requires t0 < tick <= end && Drawn(w0, w, t0, tick - 1) && (hangs <==> HangsAt(w, tick))
    requires (!hangs ==> StraysAfter(w, w', tick))
    ensures hangs ==> HangsBy(w0, t0, end)
    ensures !hangs ==> Drawn(w0, w', t0, tick)
  {
    hide StraysIn, TurnOf, NextTurn;
    if hangs {
      var s := tick / SPAN4 % TV_SIZE;
      assert DrawnSlot(w0, w, t0, tick - 1, s);
      TurnComes(t0, tick, s);
    } else {
      forall s | 0 <= s < TV_SIZE ensures DrawnSlot(w0, w', t0, tick, s) {
        assert DrawnSlot(w0, w, t0, tick - 1, s);
        if TurnOf(t0, s) >= tick { TurnComes(t0, tick, s); }
      }
    }
  }

  lemma KeepsTwice(a: Drained, b: Drained, c: Drained, t0: nat, t1: nat)
    requires KeepsDrains(a, b, t0) && KeepsDrains(b, c, t1) && t0 <= t1
    ensures KeepsDrains(a, c, t0)
  {
  }

  lemma KeepsItself(a: Drained, t0: nat)
    ensures KeepsDrains(a, a, t0)
  {
  }

  function Firings(ts: seq<Timer>, tick: nat): seq<Firing> {
    seq(|ts|, i requires 0 <= i < |ts| => Firing(ts[i], tick))
  }

  lemma DueOnly(w: Wheel, tick: nat)
    requires AllNearOrDue(w, tick)
    ensures forall t :: t in w[tick % TV1_SIZE] ==> Due(t, tick % TV1_SIZE, tick)
    ensures AllNear(w[tick % TV1_SIZE := []], tick) && (w[tick % TV1_SIZE] == [] ==> AllNear(w, tick))
  {
  }

  lemma DrainedIsEmpty(drained: Drained, tv1: Wheel, log: seq<Firing>, tick: nat)
    requires forall s {:trigger DrainedWell(s, drained, tv1, log, tick)} :: s in drained ==>
        DrainedWell(s, drained, tv1, log, tick)
    ensures forall s :: s in drained ==> s < |tv1| && tv1[s] == []
  {
    forall s | s in drained ensures s < |tv1| && tv1[s] == [] { assert DrainedWell(s, drained, tv1, log, tick); }
  }

  /** The current slot fires and is drained. */
  lemma BooksFire(log: seq<Firing>, lost: multiset<Timer>, drained: Drained, stale: set<nat>, tv1: Wheel, tick: nat)
    requires Books(log, lost, drained, stale, tv1, tick) && |tv1| == TV1_SIZE && tv1[tick % TV1_SIZE] != []
    requires forall t :: t in tv1[tick % TV1_SIZE] ==> Due(t, tick % TV1_SIZE, tick)
    ensures var s := tick % TV1_SIZE;
      s !in drained && Books(log + Firings(tv1[s], tick), lost, drained[s := tick], stale + {s}, tv1[s := []], tick)
  {
    var s := tick % TV1_SIZE;
    var ts, drained', tv1' := tv1[s], drained[s := tick], tv1[s := []];
    var log' := log + Firings(ts, tick);
    DrainedIsEmpty(drained, tv1, log, tick);
    BooksDrain(log, lost, drained, tick, s);
    forall k | 0 <= k < |log'| ensures RanWell(log'[k], drained', tick) {
      if k >= |log| { assert ts[k - |log|] in ts; }
    }
    forall r | r in drained' ensures DrainedWell(r, drained', tv1', log', tick) {
      if r == s {
        assert ts[0] in ts && log'[|log|] == Firing(ts[0], tick);
      } else {
        assert DrainedWell(r, drained, tv1, log, tick);
        DrainedKept(r, drained, tv1, tv1', log, log', tick);
      }
    }
  }

  lemma BooksLater(log: seq<Firing>, lost: multiset<Timer>, drained: Drained, stale: set<nat>, tv1: Wheel, tick: nat)
    requires Books(log, lost, drained, stale, tv1, tick)
    ensures Books(log, lost, drained, stale, tv1, tick + 1)
  {
    forall k | 0 <= k < |log| ensures RanWell(log[k], drained, tick + 1) { assert RanWell(log[k], drained, tick); }
    forall s | s in drained
      ensures DrainedWell(s, drained, tv1, log, tick + 1)
    {
      assert DrainedWell(s, drained, tv1, log, tick);
    }
  }

  lemma {:induction false} FiredJoin(log: seq<Firing>, ts: seq<Timer>, tick: nat, u: Timer)
    ensures Fired(log + Firings(ts, tick))[u] == Fired(log)[u] + multiset(ts)[u]
  {
    if ts == [] {
      assert log + Firings(ts, tick) == log;
    } else {
      var n := |ts| - 1;
      var init, last := ts[..n], ts[n];
      assert ts == init + [last];
      assert log + Firings(ts, tick) == log + Firings(init, tick) + [Firing(last, tick)];
      hide Fired, Firings;
      FiredJoin(log, init, tick, u);
      LogFired(log + Firings(init, tick), last, tick);
    }
  }

  /** Firing moves the slot's timers from the wheel to the log. */
  lemma FireAccounts(a: Wheel, b: Wheel, c: Wheel, d: Wheel, log: seq<Firing>, lost: multiset<Timer>, tick: nat)
    requires |a| == TV1_SIZE
    ensures var s := tick % TV1_SIZE;
      forall u :: Tally(a[s := []], b, c, d, log + Firings(a[s], tick), lost, u) == Tally(a, b, c, d, log, lost, u)
  {
    var s := tick % TV1_SIZE;
    forall u ensures Tally(a[s := []], b, c, d, log + Firings(a[s], tick), lost, u) == Tally(a, b, c, d, log, lost, u) {
      HeldCleared(a, s, u);
      FiredJoin(log, a[s], tick, u);
    }
  }

  /** Whether the new timer is a stray in slot `s` of the top wheel. */
  function StrayAt(timer: Option<Timer>, s: nat): nat {
    if timer.Some? && Stray(timer.value) && s == timer.value.expiry / SPAN5 % TV_SIZE then 1 else 0
  }

  lemma NewStray(w: Wheel, t: Timer)
    requires |w| == TV_SIZE && t.born < t.expiry
    ensures var w' := With(4, w, PlaceOf(t.born, t.expiry), t);
      forall s :: 0 <= s < TV_SIZE ==> StraysIn(w'[s]) == StraysIn(w[s]) + StrayAt(Some(t), s)
  {
    var p := PlaceOf(t.born, t.expiry);
    forall s | 0 <= s < TV_SIZE ensures StraysIn(With(4, w, p, t)[s]) == StraysIn(w[s]) + StrayAt(Some(t), s) {
      WithStrays(w, p, t, s);
    }
  }

  ghost predicate SlotCleared(w: Wheel, w': Wheel, s: nat) {
    && |w'| == |w| == TV_SIZE && s < TV_SIZE
    && forall r :: 0 <= r < TV_SIZE ==> StraysIn(w'[r]) == if r == s then 0 else StraysIn(w[r])
  }

  /** Whether the first timer leaves the chain for good with this turn. */
  function Leaves(chain: seq<Timer>, u: Timer): nat
    requires chain != []
  {
    if u == chain[0] && !(Stray(u) && |chain| > 1) then 1 else 0
  }

  lemma TurnHolds(chain: seq<Timer>)
    requires chain != []
    ensures forall t :: t in DrainTurn(chain) ==> t in chain
    ensures forall u :: multiset(DrainTurn(chain))[u] == multiset(chain)[u] - Leaves(chain, u)
  {
    assert chain == [chain[0]] + chain[1..];
  }

  /** The wheel's slot gets the timer when it is the one chosen by `PlaceOf`. */
  function With(k: nat, w: Wheel, p: Place, t: Timer): Wheel {
    if p.Slot? && p.wheel == k then Appended(w, p.s, t) else w
  }

  /** The first wheel, where stale slots take nothing. */
  function With1(w: Wheel, stale: set<nat>, p: Place, t: Timer): Wheel {
    if p.Slot? && p.s in stale then w else With(1, w, p, t)
  }

  function LostWith(lost: multiset<Timer>, stale: set<nat>, p: Place, t: Timer): multiset<Timer> {
    if p.Slot? && p.wheel == 1 && p.s in stale then lost + multiset{t} else lost
  }

  function LogWith(log: seq<Firing>, p: Place, t: Timer, tick: nat): seq<Firing> {
    if p.Now? then log + [Firing(t, tick)] else log
  }

  lemma PlaceInRange(tick: nat, e: nat)
    ensures var p := PlaceOf(tick, e);
      p.Slot? ==> 1 <= p.wheel <= 4 && p.s < (if p.wheel == 1 then TV1_SIZE else TV_SIZE)
  {
  }

  lemma WithFar(k: nat, w: Wheel, p: Place, t: Timer, tick: nat, but: int)
    requires 2 <= k <= 4 && AllFar(k, w, tick, but)
    requires p.Slot? && p.wheel == k ==> p.s < TV_SIZE && Far(k, t, p.s, tick)
    ensures AllFar(k, With(k, w, p, t), tick, but)
  {
  }

  lemma WithNear(w: Wheel, stale: set<nat>, p: Place, t: Timer, tick: nat)
    requires p.Slot? && p.wheel == 1 ==> p.s < TV1_SIZE && Near(t, p.s, tick)
    ensures AllNearOrDue(w, tick) ==> AllNearOrDue(With1(w, stale, p, t), tick)
    ensures AllNear(w, tick) ==> AllNear(With1(w, stale, p, t), tick)
  {
  }

  /** How often a timer is held in the four wheels, has fired or is lost. */
  ghost function Tally(a: Wheel, b: Wheel, c: Wheel, d: Wheel, log: seq<Firing>, lost: multiset<Timer>, u: Timer): nat {
    Held(a)[u] + Held(b)[u] + Held(c)[u] + Held(d)[u] + Fired(log)[u] + lost[u]
  }

  lemma WithHeld(k: nat, w: Wheel, p: Place, t: Timer, u: Timer)
    requires p.Slot? && p.wheel == k ==> p.s < |w|
    ensures Held(With(k, w, p, t))[u] == Held(w)[u] + (if p.Slot? && p.wheel == k && u == t then 1 else 0)
  {
    if p.Slot? && p.wheel == k { AppendedHeld(w, p.s, t); }
  }

  lemma LogWithFired(log: seq<Firing>, p: Place, t: Timer, tick: nat, u: Timer)
    ensures Fired(LogWith(log, p, t, tick))[u] == Fired(log)[u] + (if p.Now? && u == t then 1 else 0)
  {
    if p.Now? { LogFired(log, t, tick); }
  }

  /** Wherever the timer goes, it is counted once more. */
  lemma AddAccounts(a: Wheel, b: Wheel, c: Wheel, d: Wheel, log: seq<Firing>, lost: multiset<Timer>, stale: set<nat>,
                    tick: nat, t: Timer, u: Timer)
    requires |a| == TV1_SIZE && |b| == |c| == |d| == TV_SIZE
    ensures var p := PlaceOf(tick, t.expiry);
      Tally(With1(a, stale, p, t), With(2, b, p, t), With(3, c, p, t), With(4, d, p, t), LogWith(log, p, t, tick),
          LostWith(lost, stale, p, t), u)
        == Tally(a, b, c, d, log, lost, u) + if u == t then 1 else 0
  {
    var p := PlaceOf(tick, t.expiry);
    PlaceInRange(tick, t.expiry);
    hide PlaceOf, With, With1, LostWith, LogWith, Held, Fired;
    FirstHeld(a, lost, stale, p, t, u);
    WithHeld(2, b, p, t, u);
    WithHeld(3, c, p, t, u);
    WithHeld(4, d, p, t, u);
    LogWithFired(log, p, t, tick, u);
  }

  lemma FirstHeld(w: Wheel, lost: multiset<Timer>, stale: set<nat>, p: Place, t: Timer, u: Timer)
    requires p.Slot? && p.wheel == 1 ==> p.s < |w|
    ensures Held(With1(w, stale, p, t))[u] + LostWith(lost, stale, p, t)[u]
         == Held(w)[u] + lost[u] + if p.Slot? && p.wheel == 1 && u == t then 1 else 0
  {
    WithHeld(1, w, p, t, u);
  }

  function Appended(w: Wheel, s: nat, t: Timer): Wheel {
    if s < |w| then w[s := w[s] + [t]] else w
  }

  lemma AppendedHeld(w: Wheel, s: nat, t: Timer)
    requires s < |w|
    ensures Held(Appended(w, s, t)) == Held(w) + multiset{t}
  {
    HeldUpdate(w, s, w[s] + [t]);
    var a, b, c := Held(Appended(w, s, t)), Held(w), multiset(w[s]);
    assert a + c == b + (c + multiset{t}) == (b + multiset{t}) + c;
    CancelRight(a, b + multiset{t}, c);
  }

  lemma CancelRight(a: multiset<Timer>, b: multiset<Timer>, c: multiset<Timer>)
    requires a + c == b + c
    ensures a == b
  {
    assert a + c - c == a && b + c - c == b;
  }

  lemma {:induction false} EmptyHoldsNothing(w: Wheel)
    requires forall s :: 0 <= s < |w| ==> w[s] == []
    ensures Held(w) == multiset{}
  {
    if w != [] { EmptyHoldsNothing(w[1..]); }
  }
}
