/** Completion rings without an index: each entry carries a bit that alternates from lap to lap,
    and the consumer tells new entries from stale ones by it alone. Section 4.6 of the NVM
    Express Base Specification 1.4. */
module CompletionRing {
  import opened Rings

  datatype Entry<T> = Entry(tag: bool, value: T)

  /** The bit of the `k`-th completion: set on the first lap, clear on the second, and so on. */
  predicate Tag(k: nat, n: nat)
    requires n > 0
  {
    (k / n) % 2 == 0
  }

  /** The ring when `produced` completions have been written and `consumed` of them taken: the
      unconsumed ones are in place with their bits, and every slot up to a lap ahead still
      carries the other bit. */
  ghost predicate Lap<T>(ring: seq<Entry<T>>, produced: seq<T>, consumed: nat) {
    && 0 < |ring| && consumed <= |produced| <= consumed + |ring|
    && (forall k | consumed <= k < |produced| :: ring[Slot(k, |ring|)] == Entry(Tag(k, |ring|), produced[k]))
    && (forall k | |produced| <= k < consumed + |ring| :: ring[Slot(k, |ring|)].tag == !Tag(k, |ring|))
  }

  lemma {:induction false} QuotientOf(a: nat, n: nat, q: nat, r: nat)
    requires a == q * n + r && r < n
    ensures a / n == q && a % n == r
  {
    DivMod(a, n);
    var p, s := a / n, a % n;
    if p < q {
      Multiples(p, q, n);
    } else if q < p {
      Multiples(q, p, n);
    }
  }

  /** A lap later the slot is the same and the bit is the other one. */
  lemma {:induction false} LapLater(k: nat, n: nat)
    requires n > 0
    ensures Slot(k + n, n) == Slot(k, n) && Tag(k + n, n) == !Tag(k, n)
  {
    DivMod(k, n);
    assert (k / n + 1) * n == (k / n) * n + n;
    QuotientOf(k + n, n, k / n + 1, k % n);
  }

  /** How the consumer's position and bit move on. */
  lemma {:induction false} NextPlace(k: nat, n: nat)
    requires n > 0
    ensures Slot(k, n) + 1 < n ==> Slot(k + 1, n) == Slot(k, n) + 1 && Tag(k + 1, n) == Tag(k, n)
    ensures Slot(k, n) + 1 == n ==> Slot(k + 1, n) == 0 && Tag(k + 1, n) == !Tag(k, n)
  {
    DivMod(k, n);
    Carry(k, k / n, k % n, n);
  }

  lemma {:induction false} Carry(k: nat, q: nat, r: nat, n: nat)
    requires k == q * n + r && r < n
    ensures r + 1 < n ==> (k + 1) / n == q && (k + 1) % n == r + 1
    ensures r + 1 == n ==> (k + 1) / n == q + 1 && (k + 1) % n == 0
  {
    if r + 1 < n {
      QuotientOf(k + 1, n, q, r + 1);
    } else {
      assert (q + 1) * n == q * n + n;
      QuotientOf(k + 1, n, q + 1, 0);
    }
  }

  /** The entry at the consumer's position tests as new exactly when there is one. */
  lemma {:induction false} NewIff<T>(ring: seq<Entry<T>>, produced: seq<T>, consumed: nat)
    requires Lap(ring, produced, consumed)
    ensures ring[Slot(consumed, |ring|)].tag == Tag(consumed, |ring|) <==> consumed < |produced|
    ensures consumed < |produced| ==> ring[Slot(consumed, |ring|)].value == produced[consumed]
  {
  }

  lemma {:induction false} Blank<T>(ring: seq<Entry<T>>)
    requires 0 < |ring| && forall i | 0 <= i < |ring| :: !ring[i].tag
    ensures Lap(ring, [], 0)
  {
    var n := |ring|;
    forall k | 0 <= k < n ensures ring[Slot(k, n)].tag == !Tag(k, n) {
      QuotientOf(k, n, 0, k);
    }
  }

  function Written<T>(ring: seq<Entry<T>>, count: nat, x: T): (r: seq<Entry<T>>)
    requires 0 < |ring|
    ensures |r| == |ring|
  {
    ring[Slot(count, |ring|) := Entry(Tag(count, |ring|), x)]
  }

  lemma {:induction false} Produced<T>(ring: seq<Entry<T>>, produced: seq<T>, consumed: nat, x: T)
    requires Lap(ring, produced, consumed) && |produced| < consumed + |ring|
    ensures Lap(Written(ring, |produced|, x), produced + [x], consumed)
  {
    var n, p := |ring|, |produced|;
    forall k | consumed <= k < consumed + n && k != p ensures Slot(k, n) != Slot(p, n) {
      if k < p {
        ModApart(k, p, n);
      } else {
        ModApart(p, k, n);
      }
    }
    hide Tag;
  }

  lemma {:induction false} Consumed<T>(ring: seq<Entry<T>>, produced: seq<T>, consumed: nat)
    requires Lap(ring, produced, consumed) && consumed < |produced|
    ensures Lap(ring, produced, consumed + 1)
  {
    LapLater(consumed, |ring|);
    hide Tag, Slot;
    assert ring[Slot(consumed, |ring|)] == Entry(Tag(consumed, |ring|), produced[consumed]);
  }

  /** The bound of one lap is exact: one completion more, and the consumer sees nothing new. */
  lemma {:induction false} Overrun<T>(ring: seq<Entry<T>>, produced: seq<T>, consumed: nat, x: T)
    requires Lap(ring, produced, consumed) && |produced| == consumed + |ring|
    ensures var r := Written(ring, |produced|, x);
      r[Slot(consumed, |r|)].tag != Tag(consumed, |r|)
  {
    LapLater(consumed, |ring|);
  }

  // ---- Runs ----

  datatype Step<T> = Produce(value: T) | Consume

  /** The memory the two sides share, the device's count and the consumer's position and bit.
      The count stands for the device's own position and bit. */
  datatype State<T> = State(ring: seq<Entry<T>>, count: nat, head: nat, phase: bool, taken: seq<T>)

  /** A consumer that finds nothing new leaves everything as it is. */
  function Next<T>(s: State<T>, step: Step<T>): State<T>
    requires s.head < |s.ring|
  {
    match step
    case Produce(x) => s.(ring := Written(s.ring, s.count, x), count := s.count + 1)
    case Consume =>
      if s.ring[s.head].tag != s.phase then s
      else if s.head + 1 < |s.ring| then s.(head := s.head + 1, taken := s.taken + [s.ring[s.head].value])
      else s.(head := 0, phase := !s.phase, taken := s.taken + [s.ring[s.head].value])
  }

  function Run<T>(s: State<T>, steps: seq<Step<T>>): (r: State<T>)
    requires s.head < |s.ring|
    ensures r.head < |r.ring| == |s.ring|
  {
    if steps == [] then s else Next(Run(s, steps[..|steps| - 1]), steps[|steps| - 1])
  }

  function Values<T>(steps: seq<Step<T>>): seq<T> {
    if steps == [] then []
    else
      var last := steps[|steps| - 1];
      Values(steps[..|steps| - 1]) + if last.Produce? then [last.value] else []
  }

  /** The device never gets more than a lap ahead of what has been taken. */
  ghost predicate Paced<T>(s: State<T>, steps: seq<Step<T>>)
    requires s.head < |s.ring|
  {
    forall k | 0 <= k < |steps| && steps[k].Produce? ::
      var r := Run(s, steps[..k]);
      r.count < |r.taken| + |r.ring|
  }

  ghost predicate Agrees<T>(s: State<T>, produced: seq<T>) {
    && s.count == |produced| && Lap(s.ring, produced, |s.taken|) && s.taken <= produced
    && s.head == Slot(|s.taken|, |s.ring|) && s.phase == Tag(|s.taken|, |s.ring|)
  }

  lemma {:induction false} StepAgrees<T>(s: State<T>, produced: seq<T>, step: Step<T>)
    requires Agrees(s, produced) && (step.Produce? ==> s.count < |s.taken| + |s.ring|)
    ensures Agrees(Next(s, step), produced + if step.Produce? then [step.value] else [])
  {
    hide Lap, Tag, Slot, Written;
    match step
    case Produce(x) =>
      Produced(s.ring, produced, |s.taken|, x);
    case Consume =>
      NewIff(s.ring, produced, |s.taken|);
      NextPlace(|s.taken|, |s.ring|);
      if |s.taken| < |produced| {
        Consumed(s.ring, produced, |s.taken|);
        assert Next(s, step).taken == s.taken + [produced[|s.taken|]] == produced[..|s.taken| + 1];
      } else {
        assert Next(s, step) == s && produced + [] == produced;
      }
  }

  /** For every depth and every paced run from blank memory, what the consumer has taken is what
      the device produced, once each and in order, and a look at the head finds a new entry
      exactly when the device is ahead. */
  lemma {:induction false} RunInOrder<T>(blank: seq<Entry<T>>, steps: seq<Step<T>>)
    requires 0 < |blank| && forall i | 0 <= i < |blank| :: !blank[i].tag
    requires Paced(State(blank, 0, 0, true, []), steps)
    ensures var s := Run(State(blank, 0, 0, true, []), steps);
      && Agrees(s, Values(steps))
      && (s.ring[s.head].tag == s.phase <==> |s.taken| < |Values(steps)|)
  {
    var s0 := State(blank, 0, 0, true, []);
    hide Lap, Next, Written;
    if steps == [] {
      Blank(blank);
      QuotientOf(0, |blank|, 0, 0);
    } else {
      var front, last := steps[..|steps| - 1], steps[|steps| - 1];
      assert forall k | 0 <= k < |front| :: front[..k] == steps[..k] && front[k] == steps[k];
      RunInOrder(blank, front);
      StepAgrees(Run(s0, front), Values(front), last);
    }
    var s := Run(s0, steps);
    NewIff(s.ring, Values(steps), |s.taken|);
  }
}
