/** Evictions and the kernel's answers to attempts to open a file: which attempt
    of the retry loop succeeds is determined by the descriptors in use. */
module VfdKernel {
  import opened VfdTable

  /** What the kernel answers to an attempt to open a file. */
  datatype Outcome = Opened(fd: int) | NoDescriptor | Refused

  /** The kernel's answer to the n-th attempt, given the descriptors in use. */
  type Os = (nat, set<int>) -> Outcome

  ghost predicate HonestAt(os: Os, k: nat, used: set<int>) {
    os(k, used).Opened? ==> os(k, used).fd >= 0 && os(k, used).fd !in used
  }

  /** A descriptor that is granted was not in use. */
  ghost predicate Honest(os: Os) {
    forall k, used :: HonestAt(os, k, used)
  }

  ghost predicate WillingAt(os: Os, k: nat, used: set<int>) {
    !os(k, used).Refused? && (used == {} ==> os(k, used).Opened?)
  }

  /** Nothing but a lack of descriptors keeps a file from being opened, and there
      is one as long as we hold none. */
  ghost predicate Willing(os: Os) {
    forall k, used :: WillingAt(os, k, used)
  }

  /** The kernel is honest and willing during operation `i` of a run, whatever it
      answered before. */
  ghost predicate ServesAt(kernels: nat -> Os, i: nat) {
    Honest(kernels(i)) && Willing(kernels(i))
  }

  /** A kernel that grants up to `limit` descriptors, at least one, is willing. */
  lemma LimitedIsWilling(os: Os, limit: nat)
    requires limit >= 1 && forall k, used :: LimitedAt(os, limit, k, used)
    ensures Willing(os)
  {
    forall k, used
      ensures WillingAt(os, k, used)
    {
      assert LimitedAt(os, limit, k, used);
    }
  }

  ghost predicate LimitedAt(os: Os, limit: nat, k: nat, used: set<int>) {
    if |used| >= limit then os(k, used).NoDescriptor? else os(k, used).Opened?
  }

  // ---------- the descriptors in use ----------

  ghost function FdAt(t: Table, a: nat): int {
    if a < |t.cache| then t.cache[a].fd else CLOSED
  }

  /** The descriptors of the ring, the least recently used first. */
  ghost function FdsOf(t: Table, ring: seq<nat>): seq<int> {
    seq(|ring|, i requires 0 <= i < |ring| => FdAt(t, ring[i]))
  }

  /** The descriptors still in use when the first `n` of `lru` have been closed. */
  ghost function Drop(used: set<int>, lru: seq<int>, n: nat): set<int>
    requires n <= |lru|
  {
    if n == 0 then used else Drop(used, lru, n - 1) - {lru[n - 1]}
  }

  lemma {:induction false} DropTwice(used: set<int>, lru: seq<int>, n: nat, m: nat)
    requires n + m <= |lru|
    ensures Drop(Drop(used, lru, n), lru[n..], m) == Drop(used, lru, n + m)
  {
    if m > 0 {
      DropTwice(used, lru, n, m - 1);
    }
  }

  /** What becomes of the loop that opens a file and, for lack of descriptors,
      closes the least recently used one and tries again. */
  ghost function Verdict(os: Os, used: set<int>, lru: seq<int>, j: nat, k: nat): Outcome
    requires j <= |lru|
    decreases |lru| - j
  {
    var o := os(k, Drop(used, lru, j));
    if o.NoDescriptor? && j < |lru| then Verdict(os, used, lru, j + 1, k + 1) else o
  }

  lemma {:induction false} VerdictBehind(os: Os, used: set<int>, lru: seq<int>, n: nat, j: nat, k: nat)
    requires n + j <= |lru|
    ensures Verdict(os, Drop(used, lru, n), lru[n..], j, k) == Verdict(os, used, lru, n + j, k)
    decreases |lru| - j
  {
    DropTwice(used, lru, n, j);
    if n + j < |lru| {
      VerdictBehind(os, used, lru, n, j + 1, k + 1);
    }
  }

  /** How many files have been closed when that loop ends. */
  ghost function Closings(os: Os, used: set<int>, lru: seq<int>, j: nat, k: nat): (n: nat)
    requires j <= |lru|
    ensures j <= n <= |lru|
    decreases |lru| - j
  {
    if os(k, Drop(used, lru, j)).NoDescriptor? && j < |lru| then Closings(os, used, lru, j + 1, k + 1) else j
  }

  /** The loop closes `n` files and ends with `last`. */
  ghost predicate Ends(os: Os, used: set<int>, lru: seq<int>, n: nat, last: Outcome) {
    last == Verdict(os, used, lru, 0, 0) && n == Closings(os, used, lru, 0, 0)
  }

  /** It has closed `n` files so far. */
  ghost predicate Trying(os: Os, used: set<int>, lru: seq<int>, n: nat) {
    && n <= |lru| && Verdict(os, used, lru, 0, 0) == Verdict(os, used, lru, n, n)
    && Closings(os, used, lru, 0, 0) == Closings(os, used, lru, n, n)
  }

  /** One more attempt ends the loop, or closes one more file. */
  lemma OneMore(os: Os, used: set<int>, lru: seq<int>, n: nat)
    requires Trying(os, used, lru, n)
    ensures var last := os(n, Drop(used, lru, n));
            if last.NoDescriptor? && n < |lru| then Trying(os, used, lru, n + 1) else Ends(os, used, lru, n, last)
  {
  }

  /** The attempt that decides is the first that is not answered by a lack of
      descriptors, or the one made when nothing is left to close. */
  lemma {:induction false} ClosingsDecide(os: Os, used: set<int>, lru: seq<int>, j: nat, k: nat)
    requires j <= |lru|
    ensures var n := Closings(os, used, lru, j, k);
            && Verdict(os, used, lru, j, k) == os(k + n - j, Drop(used, lru, n))
            && (n < |lru| ==> !os(k + n - j, Drop(used, lru, n)).NoDescriptor?)
            && forall i :: j <= i < n ==> os(k + i - j, Drop(used, lru, i)).NoDescriptor?
    decreases |lru| - j
  {
    if os(k, Drop(used, lru, j)).NoDescriptor? && j < |lru| {
      ClosingsDecide(os, used, lru, j + 1, k + 1);
    }
  }

  lemma {:induction false} ClosingsBehind(os: Os, used: set<int>, lru: seq<int>, n: nat, j: nat, k: nat)
    requires n + j <= |lru|
    ensures n + Closings(os, Drop(used, lru, n), lru[n..], j, k) == Closings(os, used, lru, n + j, k)
    decreases |lru| - j
  {
    DropTwice(used, lru, n, j);
    if n + j < |lru| {
      ClosingsBehind(os, used, lru, n, j + 1, k + 1);
    }
  }

  /** A willing kernel opens the file once all our descriptors are closed, if not before. */
  lemma {:induction false} WillingOpens(os: Os, used: set<int>, lru: seq<int>, j: nat, k: nat)
    requires j <= |lru| && Willing(os) && Drop(used, lru, |lru|) == {}
    ensures Verdict(os, used, lru, j, k).Opened?
    decreases |lru| - j
  {
    assert WillingAt(os, k, Drop(used, lru, j));
    if j < |lru| {
      WillingOpens(os, used, lru, j + 1, k + 1);
    }
  }

  lemma RingFdUsed(t: Table, g: Shadow, spare: nat, i: nat)
    requires TableOk(t, g, spare) && i < |g.ring|
    ensures FdsOf(t, g.ring)[i] in t.kernel.Keys
  {
    assert RingAt(t.cache, g.ring, i) && g.ring[i] in g.ring && SlotOk(t, g, spare, g.ring[i]);
  }

  lemma RingFdsApart(t: Table, g: Shadow, spare: nat, i: nat, j: nat)
    requires TableOk(t, g, spare) && j < i < |g.ring|
    ensures FdsOf(t, g.ring)[i] != FdsOf(t, g.ring)[j]
  {
    assert RingAt(t.cache, g.ring, i) && RingAt(t.cache, g.ring, j);
    assert g.ring[i] in g.ring && SlotOk(t, g, spare, g.ring[i]);
    assert g.ring[j] != g.ring[i] && FdsApart(t, g.ring[i], g.ring[j]);
  }

  /** The ring holds every descriptor that is in use. */
  lemma {:induction false} DropCounts(t: Table, g: Shadow, spare: nat, n: nat)
    requires TableOk(t, g, spare) && n <= |g.ring|
    ensures |Drop(t.kernel.Keys, FdsOf(t, g.ring), n)| == |t.kernel| - n
    ensures forall i :: n <= i < |g.ring| ==> FdsOf(t, g.ring)[i] in Drop(t.kernel.Keys, FdsOf(t, g.ring), n)
  {
    if n > 0 {
      DropCounts(t, g, spare, n - 1);
    }
    forall i | n <= i < |g.ring|
      ensures FdsOf(t, g.ring)[i] in Drop(t.kernel.Keys, FdsOf(t, g.ring), n)
    {
      RingFdUsed(t, g, spare, i);
      if n > 0 {
        RingFdsApart(t, g, spare, i, n - 1);
      }
    }
  }

  lemma NothingLeft(t: Table, g: Shadow, spare: nat)
    requires TableOk(t, g, spare)
    ensures Drop(t.kernel.Keys, FdsOf(t, g.ring), |g.ring|) == {}
  {
    DropCounts(t, g, spare, |g.ring|);
  }

  /** How many files are closed to make room for one more. */
  function Excess(nfile: nat, others: nat, nofile: nat): (n: nat)
    ensures n <= nfile
  {
    if nfile + others < nofile then 0 else if others < nofile then nfile + others - nofile + 1 else nfile
  }

  /** The loop that makes room closes that many. */
  lemma ExcessIs(nfile: nat, n: nat, others: nat, nofile: nat)
    requires n <= nfile && (n == 0 || nfile - n + 1 + others >= nofile)
    requires n == nfile || nfile - n + others < nofile
    ensures n == Excess(nfile, others, nofile)
  {
  }

  /** What becomes of opening one more file: room is made first. */
  ghost function Opening(os: Os, t: Table, g: Shadow, others: nat, nofile: nat): Outcome {
    Verdict(os, t.kernel.Keys, FdsOf(t, g.ring), Excess(|g.ring|, others, nofile), 0)
  }

  /** How many files are closed in opening one more, if the kernel is asked at all. */
  ghost function Closing(os: Os, t: Table, g: Shadow, others: nat, nofile: nat): (n: nat)
    ensures n <= |g.ring|
  {
    Closings(os, t.kernel.Keys, FdsOf(t, g.ring), Excess(|g.ring|, others, nofile), 0)
  }

  // ---------- runs of evictions ----------

  /** Slot `a` is as before, or has been closed with its position on record. */
  ghost predicate OnlyEvicts(t: Table, t': Table, a: nat) {
    0 < a < |t.cache| && a < |t'.cache| ==>
      var v, v' := t.cache[a], t'.cache[a];
      && v'.name == v.name && v'.flags == v.flags
      && ((v'.fd == v.fd && v'.seekPos == v.seekPos) || (v'.fd == CLOSED && v'.seekPos == LogicalPos(t, a)))
      && (v'.fd != CLOSED && v.fd in t.kernel ==> v.fd in t'.kernel && t'.kernel[v.fd] == t.kernel[v.fd])
  }

  /** The `n` least recently used files were closed; nobody can tell. */
  ghost predicate Shrunk(t: Table, g: Shadow, t': Table, g': Shadow, n: nat) {
    && |t'.cache| == |t.cache| && View(t') == View(t) && KeepsSync(t, t', 0)
    && n <= |g.ring| && g'.free == g.free && g'.ring == g.ring[n..]
    && t'.kernel.Keys == Drop(t.kernel.Keys, FdsOf(t, g.ring), n)
    && FdsOf(t', g'.ring) == FdsOf(t, g.ring)[n..]
    && (forall fd :: fd in t'.kernel ==> fd in t.kernel)
    && forall a :: OnlyEvicts(t, t', a)
  }

  lemma ShrunkSelf(t: Table, g: Shadow)
    ensures Shrunk(t, g, t, g, 0)
  {
  }

  lemma ShrunkTwice(t: Table, g: Shadow, t1: Table, g1: Shadow, n: nat, t2: Table, g2: Shadow, m: nat)
    requires Shrunk(t, g, t1, g1, n) && Shrunk(t1, g1, t2, g2, m)
    ensures Shrunk(t, g, t2, g2, n + m)
  {
    forall a
      ensures OnlyEvicts(t, t2, a)
    {
      assert OnlyEvicts(t, t1, a) && OnlyEvicts(t1, t2, a);
    }
    KeepsTwice(t, t1, t2, 0, 0, 0);
    assert KeepsSync(t, t2, 0) by {
      assert SyncKept(t, t2, 0);
    }
    DropTwice(t.kernel.Keys, FdsOf(t, g.ring), n, m);
  }

  lemma ShrunkMore(t: Table, g: Shadow, t1: Table, g1: Shadow, n: nat, t2: Table, g2: Shadow) returns (n': nat)
    requires Shrunk(t, g, t1, g1, n) && Shrunk(t1, g1, t2, g2, 1)
    ensures n' == n + 1 && Shrunk(t, g, t2, g2, n')
  {
    n' := n + 1;
    ShrunkTwice(t, g, t1, g1, n, t2, g2, 1);
  }

  /** Room made by closing `n` files, and then the retry loop: the verdict over
      the table before. */
  lemma OpeningIs(os: Os, t: Table, g: Shadow, t1: Table, g1: Shadow, n: nat, others: nat, nofile: nat)
    requires Shrunk(t, g, t1, g1, n) && n == Excess(|g.ring|, others, nofile)
    ensures Verdict(os, t1.kernel.Keys, FdsOf(t1, g1.ring), 0, 0) == Opening(os, t, g, others, nofile)
    ensures n + Closings(os, t1.kernel.Keys, FdsOf(t1, g1.ring), 0, 0) == Closing(os, t, g, others, nofile)
  {
    VerdictBehind(os, t.kernel.Keys, FdsOf(t, g.ring), n, 0, 0);
    ClosingsBehind(os, t.kernel.Keys, FdsOf(t, g.ring), n, 0, 0);
  }

  /** Both phases: room made by closing `k` files, and then `m` more closed by the retry loop. */
  lemma BothPhases(os: Os, t: Table, g: Shadow, t1: Table, g1: Shadow, k: nat, t2: Table, g2: Shadow, m: nat,
                   asked: bool, last: Outcome, others: nat, nofile: nat)
    returns (n: nat)
    requires if asked then Ends(os, t1.kernel.Keys, FdsOf(t1, g1.ring), m, last) else m == 0
    requires Shrunk(t, g, t1, g1, k) && k == Excess(|g.ring|, others, nofile) && Shrunk(t1, g1, t2, g2, m)
    ensures asked ==> last == Opening(os, t, g, others, nofile)
    ensures n == if asked then Closing(os, t, g, others, nofile) else Excess(|g.ring|, others, nofile)
    ensures Shrunk(t, g, t2, g2, n)
  {
    OpeningIs(os, t, g, t1, g1, k, others, nofile);
    n := k + m;
    ShrunkTwice(t, g, t1, g1, k, t2, g2, m);
  }
}
