/** What every ring protocol here rests on: slots of a ring as windows on an unbounded history,
    16-bit indices, and heads that are in flight at most once. */
module Rings {
  import opened Bytes

  ghost predicate Distinct(s: seq<nat>) {
    forall i, j | 0 <= i < j < |s| :: s[i] != s[j]
  }

  ghost function Elements(s: seq<nat>): (r: set<nat>)
    ensures forall d: nat :: d in r <==> d in s
  {
    set d | d in s
  }

  ghost function Upto(n: nat): (r: set<nat>)
    ensures forall d: nat :: d in r <==> d < n
  {
    if n == 0 then {} else Upto(n - 1) + {n - 1}
  }

  lemma {:induction false} DistinctSize(s: seq<nat>)
    requires Distinct(s)
    ensures |Elements(s)| == |s|
  {
    if s != [] {
      var front, last := s[..|s| - 1], s[|s| - 1];
      DistinctSize(front);
      assert Elements(s) == Elements(front) + {last};
      assert last !in Elements(front);
    }
  }

  lemma {:induction false} UptoSize(n: nat)
    ensures |Upto(n)| == n
  {
    if n > 0 {
      UptoSize(n - 1);
    }
  }

  /** Distinct descriptor numbers are no more than there are descriptors. */
  lemma {:induction false} Pigeonhole(s: seq<nat>, n: nat)
    requires Distinct(s) && forall i | 0 <= i < |s| :: s[i] < n
    ensures |s| <= n
  {
    DistinctSize(s);
    UptoSize(n);
    Subset(Elements(s), Upto(n));
  }

  lemma {:induction false} Subset(a: set<nat>, b: set<nat>)
    requires a <= b
    ensures |a| <= |b|
  {
    assert b == a + (b - a);
  }

  // ---- Rings ----

  /** The ring holds the history from `lo` on. */
  ghost predicate Holds<T>(ring: seq<T>, history: seq<T>, lo: nat) {
    && 0 < |ring| && lo <= |history| <= lo + |ring|
    && forall k | lo <= k < |history| :: ring[Slot(k, |ring|)] == history[k]
  }

  lemma {:induction false} DivMod(a: nat, n: nat)
    requires n > 0
    ensures a == (a / n) * n + a % n && a % n < n
  {
  }

  /** Multiples of `n` are at least `n` apart. */
  lemma {:induction false} Multiples(p: nat, q: nat, n: nat)
    requires p < q
    ensures q * n >= p * n + n
  {
    if q > p + 1 {
      Multiples(p, q - 1, n);
    }
    assert q * n == (q - 1) * n + n;
  }

  lemma {:induction false} ModApart(a: nat, b: nat, n: nat)
    requires 0 < n && a < b < a + n
    ensures a % n != b % n
  {
    DivMod(a, n);
    DivMod(b, n);
    Apart(a / n, a % n, b / n, b % n, n);
  }

  lemma {:induction false} Apart(p: nat, r: nat, q: nat, s: nat, n: nat)
    requires r < n && s < n && 0 < (q * n + s) - (p * n + r) < n
    ensures r != s
  {
    if p < q {
      Multiples(p, q, n);
    } else if q < p {
      Multiples(q, p, n);
    }
  }

  lemma {:induction false} HoldsMore<T>(ring: seq<T>, history: seq<T>, lo: nat, x: T)
    requires Holds(ring, history, lo) && |history| < lo + |ring|
    ensures Holds(ring[Slot(|history|, |ring|) := x], history + [x], lo)
  {
    var n := |ring|;
    forall k | lo <= k < |history| + 1 ensures ring[Slot(|history|, n) := x][Slot(k, n)] == (history + [x])[k] {
      if k < |history| {
        ModApart(k, |history|, n);
      }
    }
  }

  const WRAP: nat := 0x1_0000

  /** An unbounded count cut to a 16-bit index. */
  function Cut(k: nat): u16 { k % WRAP }

  /** The next 16-bit index. */
  function Bump(i: u16): u16 { (i + 1) % WRAP }

  function Slot(i: nat, n: nat): nat
    requires n > 0
    ensures Slot(i, n) < n
  {
    i % n
  }

  ghost predicate Divides(n: nat) { n > 0 && WRAP % n == 0 }

  lemma {:induction false} CutNext(k: nat)
    ensures Bump(Cut(k)) == Cut(k + 1)
  {
  }

  /** A 16-bit counter picks the slot of the unbounded count exactly when the ring size divides
      65536. */
  lemma {:induction false} SlotStableIff(n: nat)
    requires n > 0
    ensures (forall k: nat :: Slot(Cut(k), n) == Slot(k, n)) <==> WRAP % n == 0
  {
    if WRAP % n == 0 {
      forall k: nat ensures Slot(Cut(k), n) == Slot(k, n) {
        WrapSlot(k, n);
      }
    } else {
      assert Slot(Cut(WRAP), n) == Slot(0, n) == 0;
      assert Slot(Cut(WRAP), n) != Slot(WRAP, n);
    }
  }

  lemma {:induction false} WrapSlot(k: nat, n: nat)
    requires Divides(n)
    ensures Slot(Cut(k), n) == Slot(k, n)
  {
    var wrap: nat := WRAP;
    assert wrap % n == 0;
    hide Divides;
    DivMod(wrap, n);
    DivMod(k, wrap);
    DivMod(k, n);
    DivMod(k % wrap, n);
    Rewrapped(k / wrap, wrap, wrap / n, (k % wrap) / n, (k % wrap) % n, k / n, k % n, n);
  }

  lemma {:induction false} Rewrapped(m: nat, wrap: nat, w: nat, x: nat, r: nat, q: nat, s: nat, n: nat)
    requires r < n && s < n && wrap == w * n && m * wrap + (x * n + r) == q * n + s
    ensures r == s
  {
    assert m * (w * n) == (m * w) * n;
    assert (m * w + x) * n == (m * w) * n + x * n;
    SameRemainder(m * w + x, r, q, s, n);
  }

  lemma {:induction false} SameRemainder(p: nat, r: nat, q: nat, s: nat, n: nat)
    requires r < n && s < n && p * n + r == q * n + s
    ensures r == s
  {
    if p < q {
      Multiples(p, q, n);
    } else if q < p {
      Multiples(q, p, n);
    }
  }

  /** Entries `i` and `j` of the history are outstanding together and go to the same slot. */
  predicate Collide(i: nat, j: nat, n: nat)
    requires n > 0
  {
    i < j < i + n && Slot(Cut(i), n) == Slot(Cut(j), n)
  }

  /** Two entries outstanding at once share a slot exactly when the size does not divide 65536. */
  lemma {:induction false} SlotsCollideIff(n: nat)
    requires n > 0
    ensures (exists i: nat, j: nat :: Collide(i, j, n)) <==> !Divides(n)
  {
    if Divides(n) {
      forall i: nat, j: nat ensures !Collide(i, j, n) {
        if i < j < i + n {
          NoCollision(i, j, n);
        }
      }
    } else {
      LastLap(n);
    }
  }

  lemma {:induction false} NoCollision(i: nat, j: nat, n: nat)
    requires Divides(n) && i < j < i + n
    ensures Slot(Cut(i), n) != Slot(Cut(j), n)
  {
    WrapSlot(i, n);
    WrapSlot(j, n);
    ModApart(i, j, n);
  }

  /** The last entry before the wrap that starts a lap, and the first after it. */
  lemma {:induction false} LastLap(n: nat)
    requires n > 0 && !Divides(n)
    ensures Collide(WRAP - WRAP % n, WRAP, n) && Slot(Cut(WRAP), n) == 0
  {
    var wrap: nat := WRAP;
    DivMod(wrap, n);
    LapStart(wrap / n, wrap % n, n);
  }

  lemma {:induction false} LapStart(q: nat, r: nat, n: nat)
    requires 0 < r < n && q * n + r == WRAP
    ensures Collide(WRAP - r, WRAP, n) && Slot(Cut(WRAP), n) == 0
  {
    var i := q * n;
    Multiple(q, n);
    assert Slot(i, n) == 0 && Slot(0, n) == 0;
    hide Slot;
    assert Cut(i) == i && Cut(WRAP) == 0;
  }

  lemma {:induction false} Multiple(q: nat, n: nat)
    requires n > 0
    ensures q * n % n == 0
  {
    DivMod(q * n, n);
    SameRemainder(q, 0, q * n / n, q * n % n, n);
  }

  /** A ring of `n` slots into which a 16-bit index stored these heads one after the other. */
  function Ringed(heads: seq<nat>, n: nat): (ring: seq<nat>)
    requires n > 0
    ensures |ring| == n
  {
    if heads == [] then seq(n, _ => 0)
    else
      var last := |heads| - 1;
      Ringed(heads[..last], n)[Slot(Cut(last), n) := heads[last]]
  }

  /** The device, at most `n` entries behind, finds head `k` where it looks for it. */
  predicate Finds(heads: seq<nat>, n: nat, k: nat)
    requires n > 0 && k < |heads|
  {
    Ringed(heads, n)[Slot(Cut(k), n)] == heads[k]
  }

  /** Heads a driver can submit: descriptors of the table, none of them twice among `n` in a row. */
  ghost predicate Submittable(heads: seq<nat>, n: nat) {
    && (forall i | 0 <= i < |heads| :: heads[i] < n)
    && forall i, j | 0 <= i < j < |heads| && j < i + n :: heads[i] != heads[j]
  }

  ghost predicate OrderKept(n: nat)
    requires n > 0
  {
    forall heads: seq<nat>, k: nat | Submittable(heads, n) && k < |heads| <= k + n :: Finds(heads, n, k)
  }

  /** In every run the device finds every outstanding head, in order, exactly when the size divides
      65536. */
  lemma {:induction false} OrderKeptIff(n: nat)
    requires n > 0
    ensures OrderKept(n) <==> Divides(n)
  {
    hide Divides, Submittable, Finds, Turns;
    if Divides(n) {
      forall heads: seq<nat>, k: nat | Submittable(heads, n) && k < |heads| <= k + n ensures Finds(heads, n, k) {
        SlotKept(heads, n, k);
      }
    } else {
      InTurn(n);
      LosesHead(n);
      assert !Finds(Turns(n), n, WRAP - WRAP % n);
    }
  }

  /** The head submitted at the start of the last lap before the wrap is lost after it. */
  lemma {:induction false} LosesHead(n: nat)
    requires n > 0 && !Divides(n)
    ensures 0 < WRAP % n < n && !Finds(Turns(n), n, WRAP - WRAP % n)
  {
    LastLap(n);
    InTurn(n);
    hide Slot, Cut, Submittable, Divides, Turns;
    var heads := Turns(n);
    assert Ringed(heads, n) == Ringed(heads[..WRAP], n)[Slot(Cut(WRAP), n) := heads[WRAP]];
  }

  /** All descriptors in turn, up to the first one after the wrap. */
  function Turns(n: nat): (heads: seq<nat>)
    requires n > 0
    ensures |heads| == WRAP + 1
  {
    seq(WRAP + 1, j requires 0 <= j => Slot(j, n))
  }

  lemma {:induction false} InTurn(n: nat)
    requires n > 0 && !Divides(n)
    ensures |Turns(n)| == WRAP + 1 && Submittable(Turns(n), n) && Turns(n)[WRAP] != 0 && 0 < WRAP % n < n
    ensures Turns(n)[WRAP - WRAP % n] == 0
  {
    var heads := Turns(n);
    forall i, j | 0 <= i < j < |heads| && j < i + n ensures heads[i] != heads[j] {
      ModApart(i, j, n);
    }
    var wrap: nat := WRAP;
    DivMod(wrap, n);
    Multiple(wrap / n, n);
  }

  lemma {:induction false} SlotKept(heads: seq<nat>, n: nat, k: nat)
    requires Divides(n) && k < |heads| <= k + n
    ensures Finds(heads, n, k)
  {
    var last := |heads| - 1;
    if k < last {
      NoCollision(k, last, n);
      SlotKept(heads[..last], n, k);
    }
  }

  // ---- Heads in flight ----

  /** Heads the driver has submitted and not taken back: queued for the device, held by it, or
      returned in the used ring. */
  ghost function InFlight(queued: seq<nat>, held: set<nat>, done: seq<nat>): set<nat> {
    Elements(queued) + held + Elements(done)
  }

  /** No head is in flight twice, and each is the head of a live chain. */
  ghost predicate Flying(queued: seq<nat>, held: set<nat>, done: seq<nat>, live: set<nat>) {
    && Distinct(queued) && Distinct(done)
    && (forall i | 0 <= i < |queued| :: queued[i] !in held && queued[i] !in done)
    && (forall i | 0 <= i < |done| :: done[i] !in held)
    && InFlight(queued, held, done) <= live
  }

  lemma {:induction false} QueuesUp(queued: seq<nat>, held: set<nat>, done: seq<nat>, live: set<nat>, h: nat)
    requires Flying(queued, held, done, live) && h in live && h !in InFlight(queued, held, done)
    ensures Flying(queued + [h], held, done, live)
      && InFlight(queued + [h], held, done) == InFlight(queued, held, done) + {h}
  {
  }

  lemma {:induction false} IsTaken(queued: seq<nat>, held: set<nat>, done: seq<nat>, live: set<nat>, h: nat)
    requires Flying([h] + queued, held, done, live)
    ensures Flying(queued, held + {h}, done, live)
      && InFlight(queued, held + {h}, done) == InFlight([h] + queued, held, done)
  {
    var all := [h] + queued;
    assert all[0] == h && forall i | 0 <= i < |queued| :: queued[i] == all[i + 1];
  }

  lemma {:induction false} IsReturned(queued: seq<nat>, held: set<nat>, done: seq<nat>, live: set<nat>, h: nat)
    requires Flying(queued, held, done, live) && h in held
    ensures Flying(queued, held - {h}, done + [h], live)
      && InFlight(queued, held - {h}, done + [h]) == InFlight(queued, held, done)
  {
  }

  lemma {:induction false} Lands(queued: seq<nat>, held: set<nat>, done: seq<nat>, live: set<nat>, h: nat)
    requires Flying(queued, held, [h] + done, live)
    ensures h in live && h in InFlight(queued, held, [h] + done) && Flying(queued, held, done, live)
    ensures InFlight(queued, held, done) == InFlight(queued, held, [h] + done) - {h}
  {
    var all := [h] + done;
    assert all[0] == h && forall i | 0 <= i < |done| :: done[i] == all[i + 1];
    assert h in InFlight(queued, held, all);
  }
}
