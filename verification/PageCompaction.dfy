/** Why compacting a page in place is safe: items are moved in descending order
    of offset, each to the end of the space not yet filled. */
module PageCompaction {
  import opened Bits
  import opened PageLayout
  import opened Storage

  function Room(l: ItemId): nat {
    AlignUp(l.len, MAX_ALIGNMENT)
  }

  /** Aligned space that the items named by `order` need. */
  function Need(lines: seq<ItemId>, order: seq<nat>): nat
    requires forall p :: 0 <= p < |order| ==> order[p] < |lines|
  {
    if order == [] then 0 else Need(lines, order[..|order| - 1]) + Room(lines[order[|order| - 1]])
  }

  /** Aligned space of all used items. */
  function UsedRoom(lines: seq<ItemId>): nat {
    if lines == [] then 0
    else
      var n := |lines| - 1;
      UsedRoom(lines[..n]) + if lines[n].Used() then Room(lines[n]) else 0
  }

  // ---------- the order of the moves ----------

  ghost predicate Indices(lines: seq<ItemId>, order: seq<nat>) {
    && (forall p :: 0 <= p < |order| ==> order[p] < |lines| && lines[order[p]].Used())
    && (forall p, q :: 0 <= p < q < |order| ==> order[p] != order[q])
  }

  /** Exactly the used line pointers are named. */
  ghost predicate Complete(lines: seq<ItemId>, order: seq<nat>) {
    forall i :: 0 <= i < |lines| && lines[i].Used() ==> i in order
  }

  ghost predicate DescendsAt(lines: seq<ItemId>, order: seq<nat>, p: nat, q: nat)
    requires p < |order| && q < |order| && order[p] < |lines| && order[q] < |lines|
  {
    p <= q ==> lines[order[p]].off >= lines[order[q]].off
  }

  ghost predicate Descending(lines: seq<ItemId>, order: seq<nat>) {
    && (forall p :: 0 <= p < |order| ==> order[p] < |lines|)
    && forall p, q :: 0 <= p < |order| && 0 <= q < |order| ==> DescendsAt(lines, order, p, q)
  }

  /** Stand-in for `qsort` with `itemid_compare`: an insertion sort. */
  function Insert(lines: seq<ItemId>, order: seq<nat>, x: nat): (r: seq<nat>)
    requires x < |lines| && forall p :: 0 <= p < |order| ==> order[p] < |lines|
    ensures |r| == |order| + 1
    ensures forall p :: 0 <= p < |r| ==> r[p] < |lines|
  {
    if order == [] || lines[x].off <= lines[order[|order| - 1]].off then order + [x]
    else Insert(lines, order[..|order| - 1], x) + [order[|order| - 1]]
  }

  function Sort(lines: seq<ItemId>, order: seq<nat>): (r: seq<nat>)
    requires forall p :: 0 <= p < |order| ==> order[p] < |lines|
    ensures |r| == |order| && forall p :: 0 <= p < |r| ==> r[p] < |lines|
  {
    if order == [] then [] else Insert(lines, Sort(lines, order[..|order| - 1]), order[|order| - 1])
  }

  lemma {:induction false} InsertFacts(lines: seq<ItemId>, order: seq<nat>, x: nat)
    requires x < |lines| && Descending(lines, order)
    ensures multiset(Insert(lines, order, x)) == multiset(order) + multiset{x}
    ensures Descending(lines, Insert(lines, order, x))
  {
    var r := Insert(lines, order, x);
    if order == [] || lines[x].off <= lines[order[|order| - 1]].off {
      forall p, q | 0 <= p < |r| && 0 <= q < |r|
        ensures DescendsAt(lines, r, p, q)
      {
        if p < |order| {
          assert DescendsAt(lines, order, p, |order| - 1);
          assert q < |order| ==> DescendsAt(lines, order, p, q);
        }
      }
    } else {
      var n := |order| - 1;
      var front := order[..n];
      forall p, q | 0 <= p < |front| && 0 <= q < |front|
        ensures DescendsAt(lines, front, p, q)
      {
        assert DescendsAt(lines, order, p, q);
      }
      InsertFacts(lines, front, x);
      var s := Insert(lines, front, x);
      assert order == front + [order[n]];
      InsertLast(lines, order, s, x);
    }
  }

  lemma {:induction false} InsertNeed(lines: seq<ItemId>, order: seq<nat>, x: nat)
    requires x < |lines| && forall p :: 0 <= p < |order| ==> order[p] < |lines|
    ensures Need(lines, Insert(lines, order, x)) == Need(lines, order) + Room(lines[x])
  {
    var r := Insert(lines, order, x);
    if order == [] || lines[x].off <= lines[order[|order| - 1]].off {
      assert r[..|r| - 1] == order;
    } else {
      var front := order[..|order| - 1];
      InsertNeed(lines, front, x);
      assert r[..|r| - 1] == Insert(lines, front, x);
    }
  }

  /** The old last element stays below everything, the new one included. */
  lemma InsertLast(lines: seq<ItemId>, order: seq<nat>, s: seq<nat>, x: nat)
    requires order != [] && x < |lines| && Descending(lines, order) && Descending(lines, s)
    requires lines[x].off > lines[order[|order| - 1]].off
    requires multiset(s) == multiset(order[..|order| - 1]) + multiset{x}
    ensures Descending(lines, s + [order[|order| - 1]])
  {
    var n := |order| - 1;
    var r := s + [order[n]];
    forall p, q | 0 <= p < |r| && 0 <= q < |r|
      ensures DescendsAt(lines, r, p, q)
    {
      if p < |s| && q < |s| {
        assert DescendsAt(lines, s, p, q);
      } else if p < |s| {
        assert s[p] in multiset(s);
        if s[p] != x {
          assert s[p] in order[..n];
          var m :| 0 <= m < n && order[..n][m] == s[p];
          assert DescendsAt(lines, order, m, n);
        }
      }
    }
  }

  lemma {:induction false} SortFacts(lines: seq<ItemId>, order: seq<nat>)
    requires forall p :: 0 <= p < |order| ==> order[p] < |lines|
    ensures Descending(lines, Sort(lines, order))
    ensures multiset(Sort(lines, order)) == multiset(order)
  {
    if order != [] {
      var front, x := order[..|order| - 1], order[|order| - 1];
      SortFacts(lines, front);
      var s := Sort(lines, front);
      InsertFacts(lines, s, x);
      assert Sort(lines, order) == Insert(lines, s, x);
      assert multiset(order) == multiset(front) + multiset{x} by {
        assert order == front + [x];
      }
    }
  }

  lemma {:induction false} SortNeed(lines: seq<ItemId>, order: seq<nat>)
    requires forall p :: 0 <= p < |order| ==> order[p] < |lines|
    ensures Need(lines, Sort(lines, order)) == Need(lines, order)
  {
    if order != [] {
      var front, x := order[..|order| - 1], order[|order| - 1];
      SortNeed(lines, front);
      InsertNeed(lines, Sort(lines, front), x);
    }
  }

  /** A permutation of distinct indices is again one. */
  lemma SortedIndices(lines: seq<ItemId>, base: seq<nat>, order: seq<nat>)
    requires Indices(lines, base) && Complete(lines, base) && multiset(order) == multiset(base)
    ensures Indices(lines, order) && Complete(lines, order)
  {
    forall p | 0 <= p < |order|
      ensures order[p] < |lines| && lines[order[p]].Used()
    {
      assert order[p] in multiset(order);
      assert order[p] in base;
    }
    forall p, q | 0 <= p < q < |order|
      ensures order[p] != order[q]
    {
      if order[p] == order[q] {
        TwiceCounted(order, p, q);
        CountedOnce(base, order[p]);
        assert false;
      }
    }
    forall i | 0 <= i < |lines| && lines[i].Used()
      ensures i in order
    {
      assert i in multiset(base);
    }
  }

  lemma TwiceCounted(s: seq<nat>, p: nat, q: nat)
    requires p < q < |s| && s[p] == s[q]
    ensures multiset(s)[s[p]] >= 2
  {
    assert s == s[..q] + [s[q]] + s[q + 1..];
    assert s[p] in s[..q];
  }

  lemma {:induction false} CountedOnce(s: seq<nat>, x: nat)
    requires forall p, q :: 0 <= p < q < |s| ==> s[p] != s[q]
    ensures multiset(s)[x] <= 1
  {
    if s != [] {
      var n := |s| - 1;
      CountedOnce(s[..n], x);
      assert s == s[..n] + [s[n]];
      assert s[n] !in s[..n];
    }
  }

  // ---------- the moves ----------

  /** The bytes item `i` had at the start. */
  ghost function Content(lines: seq<ItemId>, data: seq<byte>, i: nat): seq<byte>
    requires i < |lines| && lines[i].off + lines[i].len <= |data|
  {
    data[lines[i].off..lines[i].off + lines[i].len]
  }

  /** The page while it is compacted: `lines0` and `data0` are its state at the
      start, `lines`, `data` and `upper` its state now. */
  datatype Work = Work(lines0: seq<ItemId>, data0: seq<byte>, special: nat, order: seq<nat>,
                       lines: seq<ItemId>, data: seq<byte>, upper: nat)

  ghost predicate WorkOk(w: Work) {
    && |w.lines| == |w.lines0| && |w.data| == |w.data0| && w.special <= |w.data|
    && Indices(w.lines0, w.order) && Descending(w.lines0, w.order)
    && (forall i :: 0 <= i < |w.lines0| ==> StartAt(w, i))
  }

  /** Where the compaction starts, used items are in space and disjoint. */
  ghost predicate StartAt(w: Work, i: nat)
    requires i < |w.lines0|
  {
    && (w.lines0[i].Used() ==> w.lines0[i].Limit() <= w.special)
    && forall j :: 0 <= j < |w.lines0| ==> Apart(w.lines0, i, j)
  }

  /** An item still to be moved: untouched, and below the filled space. */
  ghost predicate Pending(w: Work, p: nat)
    requires WorkOk(w) && p < |w.order|
  {
    var i := w.order[p];
    && w.lines[i] == w.lines0[i] && w.lines0[i].Limit() <= w.upper
    && w.lines0[i].off + w.lines0[i].len <= |w.data|
    && Shows(w.data, w.lines[i], Content(w.lines0, w.data0, i))
  }

  /** An item already moved: in the filled space, with the bytes it had. */
  ghost predicate Moved(w: Work, p: nat)
    requires WorkOk(w) && p < |w.order|
  {
    var i := w.order[p];
    && w.lines0[i].off + w.lines0[i].len <= |w.data|
    && w.lines[i] == w.lines0[i].(off := w.lines[i].off)
    && w.upper <= w.lines[i].off && w.lines[i].Limit() <= w.special
    && Shows(w.data, w.lines[i], Content(w.lines0, w.data0, i))
  }

  ghost predicate Above(w: Work, p: nat, q: nat)
    requires WorkOk(w) && p < |w.order| && q < |w.order|
  {
    p < q ==> w.lines[w.order[q]].Limit() <= w.lines[w.order[p]].off
  }

  /** The loop invariant of the compaction after `n` moves. */
  ghost predicate Compacted(w: Work, n: nat) {
    && WorkOk(w) && n <= |w.order|
    && (forall p :: 0 <= p < n ==> Moved(w, p))
    && (forall p :: n <= p < |w.order| ==> Pending(w, p))
    && (forall p, q :: 0 <= p < n && 0 <= q < n ==> Above(w, p, q))
    && w.upper + Need(w.lines0, w.order[..n]) == w.special
  }

  /** Moving the next item: `data` is the page after the overlapping copy. */
  function Next(w: Work, n: nat, data: seq<byte>): Work
    requires n < |w.order| && w.order[n] < |w.lines| && Room(w.lines[w.order[n]]) <= w.upper
  {
    var i := w.order[n];
    var upper := w.upper - Room(w.lines[i]);
    w.(upper := upper, data := data, lines := w.lines[i := w.lines[i].(off := upper)])
  }

  /** Nothing outside [dst, dst + len) is changed, and what was at src is there. */
  ghost predicate Copied(before: seq<byte>, after: seq<byte>, dst: nat, src: nat, len: nat) {
    && |before| == |after| && dst + len <= |before| && src + len <= |before|
    && after == before[..dst] + before[src..src + len] + before[dst + len..]
  }

  lemma Parts(a: seq<byte>, b: seq<byte>, c: seq<byte>)
    ensures (a + b + c)[..|a|] == a && (a + b + c)[|a| + |b|..] == c
  {
  }

  lemma CopiedShows(before: seq<byte>, after: seq<byte>, dst: nat, src: nat, len: nat, l: ItemId, content: seq<byte>)
    requires Copied(before, after, dst, src, len) && Shows(before, l, content)
    requires l.off + l.len <= dst || dst + len <= l.off
    ensures Shows(after, l, content)
  {
    Parts(before[..dst], before[src..src + len], before[dst + len..]);
    if l.off + l.len <= dst {
      SliceWithin(after, 0, dst, l.off, l.len);
      SliceWithin(before, 0, dst, l.off, l.len);
    } else {
      SliceFrom(before, dst + len, l.off, l.len);
      SliceFrom(after, dst + len, l.off, l.len);
    }
  }

  /** The next item can be moved without going below where it lies. */
  lemma NextFits(w: Work, n: nat)
    requires Compacted(w, n) && n < |w.order|
    ensures w.order[n] < |w.lines|
    ensures var l := w.lines[w.order[n]]; l.off + Room(l) <= w.upper <= w.special && l.off + l.len <= |w.data|
  {
    assert Pending(w, n);
  }

  lemma NextWorkOk(w: Work, n: nat, data: seq<byte>)
    requires Compacted(w, n) && n < |w.order| && |data| == |w.data|
    requires w.order[n] < |w.lines| && Room(w.lines[w.order[n]]) <= w.upper
    ensures WorkOk(Next(w, n, data))
  {
    var w' := Next(w, n, data);
    forall i | 0 <= i < |w'.lines0|
      ensures StartAt(w', i)
    {
      assert StartAt(w, i);
    }
  }

  /** The copy overlaps no item that is still to be moved or already was. */
  lemma NextKeepsPending(w: Work, n: nat, data: seq<byte>, p: nat)
    requires Compacted(w, n) && n < p < |w.order|
    requires w.order[n] < |w.lines| && Room(w.lines[w.order[n]]) <= w.upper
    requires Copied(w.data, data, w.upper - Room(w.lines[w.order[n]]), w.lines[w.order[n]].off, w.lines[w.order[n]].len)
    requires WorkOk(Next(w, n, data))
    ensures Pending(Next(w, n, data), p)
  {
    var i, j := w.order[n], w.order[p];
    assert Pending(w, n) && Pending(w, p);
    assert DescendsAt(w.lines0, w.order, n, p);
    assert StartAt(w, i) && Apart(w.lines0, i, j);
    var upper := w.upper - Room(w.lines[i]);
    assert w.lines0[j].Limit() <= upper;
    CopiedShows(w.data, data, upper, w.lines[i].off, w.lines[i].len, w.lines[j], Content(w.lines0, w.data0, j));
  }

  lemma NextKeepsMoved(w: Work, n: nat, data: seq<byte>, p: nat)
    requires Compacted(w, n) && p < n < |w.order|
    requires w.order[n] < |w.lines| && Room(w.lines[w.order[n]]) <= w.upper
    requires Copied(w.data, data, w.upper - Room(w.lines[w.order[n]]), w.lines[w.order[n]].off, w.lines[w.order[n]].len)
    requires WorkOk(Next(w, n, data))
    ensures Moved(Next(w, n, data), p)
  {
    var i, j := w.order[n], w.order[p];
    assert Pending(w, n) && Moved(w, p);
    var upper := w.upper - Room(w.lines[i]);
    CopiedShows(w.data, data, upper, w.lines[i].off, w.lines[i].len, w.lines[j], Content(w.lines0, w.data0, j));
  }

  lemma NextMoved(w: Work, n: nat, data: seq<byte>)
    requires Compacted(w, n) && n < |w.order|
    requires w.order[n] < |w.lines| && Room(w.lines[w.order[n]]) <= w.upper
    requires Copied(w.data, data, w.upper - Room(w.lines[w.order[n]]), w.lines[w.order[n]].off, w.lines[w.order[n]].len)
    requires WorkOk(Next(w, n, data))
    ensures Moved(Next(w, n, data), n)
  {
    var i := w.order[n];
    assert Pending(w, n);
    var l, dst := w.lines[i], w.upper - Room(w.lines[i]);
    assert w.upper <= w.special;
    assert data[dst..dst + l.len] == w.data[l.off..l.off + l.len];
  }

  /** One move keeps the invariant. */
  lemma CompactStep(w: Work, n: nat, data: seq<byte>)
    requires Compacted(w, n) && n < |w.order|
    requires w.order[n] < |w.lines| && Room(w.lines[w.order[n]]) <= w.upper
    requires Copied(w.data, data, w.upper - Room(w.lines[w.order[n]]), w.lines[w.order[n]].off, w.lines[w.order[n]].len)
    ensures Compacted(Next(w, n, data), n + 1)
  {
    var w' := Next(w, n, data);
    NextWorkOk(w, n, data);
    forall p | n + 1 <= p < |w'.order|
      ensures Pending(w', p)
    {
      NextKeepsPending(w, n, data, p);
    }
    forall p | 0 <= p < n + 1
      ensures Moved(w', p)
    {
      if p < n {
        NextKeepsMoved(w, n, data, p);
      } else {
        NextMoved(w, n, data);
      }
    }
    forall p, q | 0 <= p < n + 1 && 0 <= q < n + 1
      ensures Above(w', p, q)
    {
      if p < n && q < n {
        assert Above(w, p, q);
      } else if p < n {
        assert Moved(w, p);
      }
    }
    assert Pending(w, n);
    NeedStep(w.lines0, w.order, n);
  }

  lemma NeedStep(lines: seq<ItemId>, order: seq<nat>, n: nat)
    requires n < |order| && forall p :: 0 <= p < |order| ==> order[p] < |lines|
    ensures Need(lines, order[..n + 1]) == Need(lines, order[..n]) + Room(lines[order[n]])
  {
    assert order[..n + 1][..n] == order[..n];
  }

  // ---------- before and after the moves ----------

  /** Unused line pointers lose whatever storage they held. */
  function Freed(l: ItemId): ItemId {
    if l.Used() then l else l.(len := 0)
  }

  ghost predicate FreedAt(s: seq<ItemId>, lines: seq<ItemId>, i: nat)
    requires i < |lines| && i < |s|
  {
    s[i] == Freed(lines[i])
  }

  /** `s` is `lines` with all unused pointers deallocated. */
  ghost predicate AllFreed(s: seq<ItemId>, lines: seq<ItemId>) {
    |s| == |lines| && forall i :: 0 <= i < |lines| ==> FreedAt(s, lines, i)
  }

  /** Where the moves start. */
  lemma CompactStart(lines: seq<ItemId>, lower: nat, upper: nat, special: nat, freed: seq<ItemId>, data: seq<byte>,
                     order: seq<nat>)
    requires PageOk(lines, lower, upper, special) && AllFreed(freed, lines) && |data| == BLCKSZ
    requires Indices(freed, order) && Descending(freed, order)
    ensures Compacted(Work(freed, data, special, order, freed, data, special), 0)
  {
    var w := Work(freed, data, special, order, freed, data, special);
    forall i | 0 <= i < |freed|
      ensures StartAt(w, i)
    {
      assert ItemAt(lines, upper, special, i) && FreedAt(freed, lines, i);
      forall j | 0 <= j < |freed|
        ensures Apart(freed, i, j)
      {
        assert Apart(lines, i, j) && FreedAt(freed, lines, j);
      }
    }
    forall p | 0 <= p < |order|
      ensures Pending(w, p)
    {
      assert StartAt(w, order[p]);
    }
  }

  /** What compaction promises for line pointer `i`. */
  ghost predicate Repaired(lines: seq<ItemId>, data: seq<byte>, s: seq<ItemId>, after: seq<byte>, i: nat)
    requires i < |lines| == |s|
  {
    if lines[i].Used() then
      && s[i] == lines[i].(off := s[i].off)
      && lines[i].off + lines[i].len <= |data|
      && Shows(after, s[i], Content(lines, data, i))
    else s[i] == Freed(lines[i])
  }

  /** Used items stay in the order in which they lie on the page. */
  ghost predicate Sequent(lines: seq<ItemId>, s: seq<ItemId>, i: nat, j: nat)
    requires i < |lines| == |s| && j < |lines|
  {
    lines[i].Used() && lines[j].Used() && lines[i].off < lines[j].off ==> s[i].Limit() <= s[j].off
  }

  /** Where they end: a valid page on which every used item has its bytes. */
  lemma CompactEnd(lines: seq<ItemId>, lower: nat, upper: nat, w: Work)
    requires PageOk(lines, lower, upper, w.special) && AllFreed(w.lines0, lines)
    requires Compacted(w, |w.order|) && Complete(w.lines0, w.order) && upper <= w.upper
    requires forall i :: 0 <= i < |lines| && !lines[i].Used() ==> w.lines[i] == w.lines0[i]
    ensures PageOk(w.lines, lower, w.upper, w.special)
    ensures forall i :: 0 <= i < |lines| ==> Repaired(lines, w.data0, w.lines, w.data, i)
    ensures forall i, j :: 0 <= i < |lines| && 0 <= j < |lines| ==> Sequent(lines, w.lines, i, j)
  {
    forall i | 0 <= i < |lines|
      ensures ItemAt(w.lines, w.upper, w.special, i) && Repaired(lines, w.data0, w.lines, w.data, i)
    {
      assert FreedAt(w.lines0, lines, i);
      if lines[i].Used() {
        var p :| 0 <= p < |w.order| && w.order[p] == i;
        assert Moved(w, p);
      }
    }
    forall i, j | 0 <= i < |lines| && 0 <= j < |lines|
      ensures Apart(w.lines, i, j) && Sequent(lines, w.lines, i, j)
    {
      assert FreedAt(w.lines0, lines, i) && FreedAt(w.lines0, lines, j);
      if i != j && lines[i].Used() && lines[j].Used() {
        var p :| 0 <= p < |w.order| && w.order[p] == i;
        var q :| 0 <= q < |w.order| && w.order[q] == j;
        assert Above(w, p, q) && Above(w, q, p) && DescendsAt(w.lines0, w.order, p, q);
      }
    }
    assert w.order[..|w.order|] == w.order;
  }

  lemma UsedStep(lines: seq<ItemId>, i: nat)
    requires i < |lines|
    ensures UsedRoom(lines[..i + 1]) == UsedRoom(lines[..i]) + if lines[i].Used() then Room(lines[i]) else 0
  {
    assert lines[..i + 1][..i] == lines[..i];
  }

  // ---------- gathering ----------

  /** Line pointer `j` while the gathering loop is at `i`. */
  ghost predicate GatherAt(cur: seq<ItemId>, lines: seq<ItemId>, i: nat, j: nat)
    requires j < |cur| == |lines|
  {
    if j < i then FreedAt(cur, lines, j) else cur[j] == lines[j]
  }

  /** `base` names exactly the used ones of the first `i` line pointers. */
  ghost predicate Names(lines: seq<ItemId>, base: seq<nat>, i: nat) {
    && i <= |lines|
    && (forall p :: 0 <= p < |base| ==> base[p] < i && lines[base[p]].Used())
    && (forall p, q :: 0 <= p < q < |base| ==> base[p] != base[q])
    && (forall j :: 0 <= j < i ==> NamedAt(lines, base, j))
  }

  ghost predicate NamedAt(lines: seq<ItemId>, base: seq<nat>, j: nat)
    requires j < |lines|
  {
    lines[j].Used() ==> j in base
  }

  ghost predicate Gathered(cur: seq<ItemId>, lines: seq<ItemId>, base: seq<nat>, i: nat) {
    && |lines| == |cur| && Names(lines, base, i)
    && (forall j :: 0 <= j < |lines| ==> GatherAt(cur, lines, i, j))
    && Need(lines, base) == UsedRoom(lines[..i])
  }

  lemma NameStep(lines: seq<ItemId>, base: seq<nat>, i: nat, base': seq<nat>)
    requires Names(lines, base, i) && i < |lines|
    requires base' == if lines[i].Used() then base + [i] else base
    ensures Names(lines, base', i + 1)
    ensures Need(lines, base') == Need(lines, base) + if lines[i].Used() then Room(lines[i]) else 0
  {
    if lines[i].Used() {
      assert base'[..|base'| - 1] == base;
    }
    forall j | 0 <= j < i + 1
      ensures NamedAt(lines, base', j)
    {
      assert j < i ==> NamedAt(lines, base, j);
    }
  }

  lemma GatherStep(cur: seq<ItemId>, lines: seq<ItemId>, base: seq<nat>, i: nat, cur': seq<ItemId>, base': seq<nat>)
    requires Gathered(cur, lines, base, i) && i < |lines|
    requires cur' == cur[i := Freed(lines[i])]
    requires base' == if lines[i].Used() then base + [i] else base
    ensures Gathered(cur', lines, base', i + 1)
  {
    UsedStep(lines, i);
    NameStep(lines, base, i, base');
    var next := i + 1;
    forall j | 0 <= j < |lines|
      ensures GatherAt(cur', lines, next, j)
    {
      assert GatherAt(cur, lines, i, j);
    }
  }
}
