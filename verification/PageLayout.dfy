/** Slotted pages as values: line pointers, the storage they own, and what
    insertion, deletion and compaction do to them. */
module PageLayout {
  import opened Bits
  import opened Storage

  const HEADER: nat := 8        // sizeof(PageHeaderData) - sizeof(ItemIdData)
  const SIZEOF_ITEMID: nat := 4

  /** A line pointer. */
  datatype ItemId = ItemId(off: nat, len: nat, flags: nat) {
    predicate Used() {
      flags % 2 == 1
    }

    /** Neither in use nor holding storage: the pointer may be recycled. */
    predicate Recyclable() {
      !Used() && len == 0
    }

    /** Where the storage reserved for the item ends. */
    function Limit(): nat {
      off + AlignUp(len, MAX_ALIGNMENT)
    }
  }

  ghost predicate InSpace(l: ItemId, upper: nat, special: nat) {
    !l.Recyclable() ==> upper <= l.off && l.Limit() <= special
  }

  ghost predicate Disjoint(l: ItemId, m: ItemId) {
    l.Recyclable() || m.Recyclable() || l.Limit() <= m.off || m.Limit() <= l.off
  }

  ghost predicate ItemAt(lines: seq<ItemId>, upper: nat, special: nat, i: nat)
    requires i < |lines|
  {
    InSpace(lines[i], upper, special)
  }

  ghost predicate Apart(lines: seq<ItemId>, i: nat, j: nat)
    requires i < |lines| && j < |lines|
  {
    i == j || Disjoint(lines[i], lines[j])
  }

  /** The invariant of a page: free space between `lower` and `upper`, and the
      items' storage pairwise disjoint between `upper` and `special`. */
  ghost predicate PageOk(lines: seq<ItemId>, lower: nat, upper: nat, special: nat) {
    && lower == HEADER + SIZEOF_ITEMID * |lines|
    && lower <= upper <= special <= BLCKSZ
    && (forall i :: 0 <= i < |lines| ==> ItemAt(lines, upper, special, i))
    && (forall i, j :: 0 <= i < |lines| && 0 <= j < |lines| ==> Apart(lines, i, j))
  }

  /** The bytes an item consists of. */
  ghost predicate Shows(data: seq<byte>, l: ItemId, content: seq<byte>) {
    l.off + l.len <= |data| && data[l.off..l.off + l.len] == content
  }

  // ---------- insertion ----------

  /** Line pointers with a new one at position `k`, the rest shuffled down. */
  function Inserted(lines: seq<ItemId>, k: nat, l: ItemId): seq<ItemId>
    requires k <= |lines|
  {
    lines[..k] + [l] + lines[k..]
  }

  /** Line pointers with position `k` overwritten, or a new one at the end. */
  function Placed(lines: seq<ItemId>, k: nat, l: ItemId): seq<ItemId>
    requires k <= |lines|
  {
    if k < |lines| then lines[k := l] else lines + [l]
  }

  lemma InsertKeepsPage(lines: seq<ItemId>, lower: nat, upper: nat, special: nat, k: nat, l: ItemId,
                        lines': seq<ItemId>)
    requires PageOk(lines, lower, upper, special) && k <= |lines|
    requires l.Limit() == upper && HEADER + SIZEOF_ITEMID * |lines'| <= l.off
    requires lines' == Inserted(lines, k, l) || lines' == Placed(lines, k, l)
    ensures PageOk(lines', HEADER + SIZEOF_ITEMID * |lines'|, l.off, special)
  {
    forall i | 0 <= i < |lines'|
      ensures ItemAt(lines', l.off, special, i)
    {
      if lines'[i] != l {
        var i' := Origin(lines, k, l, lines', i);
        assert ItemAt(lines, upper, special, i');
      }
    }
    forall i, j | 0 <= i < |lines'| && 0 <= j < |lines'|
      ensures Apart(lines', i, j)
    {
      if i != k && j != k {
        var i' := Origin(lines, k, l, lines', i);
        var j' := Origin(lines, k, l, lines', j);
        assert Apart(lines, i', j');
      } else if i != j {
        var i' := Origin(lines, k, l, lines', if i == k then j else i);
        assert ItemAt(lines, upper, special, i');
      }
    }
  }

  /** Which old line pointer the one now at position `i` is. */
  lemma Origin(lines: seq<ItemId>, k: nat, l: ItemId, lines': seq<ItemId>, i: nat) returns (i': nat)
    requires k <= |lines| && i < |lines'| && (i != k || lines'[i] != l)
    requires lines' == Inserted(lines, k, l) || lines' == Placed(lines, k, l)
    ensures i' < |lines| && lines'[i] == lines[i']
    ensures lines' == Inserted(lines, k, l) ==> i' == if i < k then i else i - 1
    ensures lines' != Inserted(lines, k, l) ==> i' == i
  {
    i' := if lines' == Inserted(lines, k, l) && i > k then i - 1 else i;
  }

  /** Bytes at and above `bound` are the same. */
  ghost predicate SameFrom(before: seq<byte>, after: seq<byte>, bound: nat) {
    |before| == |after| && bound <= |before| && before[bound..] == after[bound..]
  }

  /** Exactly the bytes of the item were written. */
  ghost predicate WroteAt(before: seq<byte>, after: seq<byte>, off: nat, item: seq<byte>) {
    off + |item| <= |before| && after == before[..off] + item + before[off + |item|..]
  }

  lemma StillShows(before: seq<byte>, after: seq<byte>, bound: nat, l: ItemId, content: seq<byte>)
    requires SameFrom(before, after, bound) && bound <= l.off && Shows(before, l, content)
    ensures Shows(after, l, content)
  {
    SliceFrom(before, bound, l.off, l.len);
    SliceFrom(after, bound, l.off, l.len);
  }

  lemma SliceWithin(a: seq<byte>, lo: nat, hi: nat, off: nat, len: nat)
    requires lo <= hi <= |a| && lo + off + len <= hi
    ensures a[lo..hi][off..off + len] == a[lo + off..lo + off + len]
  {
    var s := a[lo..hi];
    assert forall i :: off <= i < off + len ==> s[i] == a[lo + i];
  }

  lemma SliceFrom(a: seq<byte>, bound: nat, off: nat, len: nat)
    requires bound <= off && off + len <= |a|
    ensures a[off..off + len] == a[bound..][off - bound..off - bound + len]
  {
  }

  // ---------- deletion ----------

  /** Line pointers of storage at or before `loc` move forward by `size`. */
  function Shift(l: ItemId, loc: nat, size: nat): ItemId {
    if l.off <= loc then l.(off := l.off + size) else l
  }

  function Remaining(lines: seq<ItemId>, k: nat): seq<ItemId>
    requires k < |lines|
  {
    lines[..k] + lines[k + 1..]
  }

  /** `s` is `lines` with the first `i` of them shifted. */
  ghost predicate ShiftedFrom(s: seq<ItemId>, lines: seq<ItemId>, loc: nat, size: nat, i: nat) {
    && |s| == |lines|
    && forall j :: 0 <= j < |lines| ==> ShiftedAt(s, lines, loc, size, i, j)
  }

  ghost predicate ShiftedAt(s: seq<ItemId>, lines: seq<ItemId>, loc: nat, size: nat, i: nat, j: nat)
    requires j < |lines| == |s|
  {
    s[j] == if j < i then lines[j] else Shift(lines[j], loc, size)
  }

  /** Deleting item `k`: its pointer goes, and storage below it moves up. */
  ghost predicate IsDeleted(s: seq<ItemId>, lines: seq<ItemId>, k: nat)
    requires k < |lines|
  {
    ShiftedFrom(s, Remaining(lines, k), lines[k].off, AlignUp(lines[k].len, MAX_ALIGNMENT), 0)
  }

  lemma ShiftKeeps(l: ItemId, d: ItemId, upper: nat, special: nat)
    requires InSpace(d, upper, special) && InSpace(l, upper, special) && Disjoint(l, d)
    ensures InSpace(Shift(l, d.off, AlignUp(d.len, MAX_ALIGNMENT)), upper + AlignUp(d.len, MAX_ALIGNMENT), special)
  {
    AlignUpLeast(0, MAX_ALIGNMENT, 0);
  }

  lemma ShiftApart(l: ItemId, m: ItemId, d: ItemId)
    requires Disjoint(l, m) && Disjoint(l, d) && Disjoint(m, d)
    ensures var size := AlignUp(d.len, MAX_ALIGNMENT);
            Disjoint(Shift(l, d.off, size), Shift(m, d.off, size))
  {
    AlignUpLeast(0, MAX_ALIGNMENT, 0);
  }

  lemma DeleteKeepsPage(lines: seq<ItemId>, lower: nat, upper: nat, special: nat, k: nat, s: seq<ItemId>)
    requires PageOk(lines, lower, upper, special) && k < |lines| && IsDeleted(s, lines, k)
    ensures PageOk(s, lower - SIZEOF_ITEMID, upper + AlignUp(lines[k].len, MAX_ALIGNMENT), special)
  {
    var r, size := Remaining(lines, k), AlignUp(lines[k].len, MAX_ALIGNMENT);
    assert ItemAt(lines, upper, special, k);
    AlignUpLeast(0, MAX_ALIGNMENT, 0);
    var up := upper + size;
    forall i | 0 <= i < |s|
      ensures ItemAt(s, up, special, i)
    {
      var i' := if i < k then i else i + 1;
      assert ShiftedAt(s, r, lines[k].off, size, 0, i) && r[i] == lines[i'];
      assert ItemAt(lines, upper, special, i') && Apart(lines, i', k);
      ShiftKeeps(lines[i'], lines[k], upper, special);
    }
    forall i, j | 0 <= i < |s| && 0 <= j < |s|
      ensures Apart(s, i, j)
    {
      var i', j' := if i < k then i else i + 1, if j < k then j else j + 1;
      assert ShiftedAt(s, r, lines[k].off, size, 0, i) && r[i] == lines[i'];
      assert ShiftedAt(s, r, lines[k].off, size, 0, j) && r[j] == lines[j'];
      assert Apart(lines, i', k) && Apart(lines, j', k) && Apart(lines, i', j');
      if i != j {
        ShiftApart(lines[i'], lines[j'], lines[k]);
      }
    }
  }

  /** The data area after [upper, loc) has been moved forward by `size`. */
  ghost predicate MovedUp(before: seq<byte>, after: seq<byte>, upper: nat, loc: nat, size: nat) {
    && |before| == |after| && upper <= loc && loc + size <= |before|
    && after[upper + size..loc + size] == before[upper..loc]
    && after[loc + size..] == before[loc + size..]
  }

  lemma MovedNowhere(before: seq<byte>, after: seq<byte>, upper: nat, loc: nat)
    requires MovedUp(before, after, upper, loc, 0)
    ensures SameFrom(before, after, upper)
  {
    assert after[upper..] == after[upper..loc] + after[loc..];
    assert before[upper..] == before[upper..loc] + before[loc..];
  }

  /** Every other item still consists of the same bytes. */
  lemma DeleteKeepsContent(before: seq<byte>, after: seq<byte>, l: ItemId, d: ItemId, upper: nat, special: nat,
                           content: seq<byte>)
    requires !l.Recyclable() && Disjoint(l, d)
    requires InSpace(l, upper, special) && InSpace(d, upper, special) && special <= |before|
    requires MovedUp(before, after, upper, d.off, AlignUp(d.len, MAX_ALIGNMENT)) && Shows(before, l, content)
    ensures Shows(after, Shift(l, d.off, AlignUp(d.len, MAX_ALIGNMENT)), content)
  {
    var size, loc := AlignUp(d.len, MAX_ALIGNMENT), d.off;
    if d.Recyclable() {
      AlignUpLeast(0, MAX_ALIGNMENT, 0);
      MovedNowhere(before, after, upper, loc);
      StillShows(before, after, upper, l, content);
    } else if l.off <= loc && l.Limit() <= loc {
      var o := l.off - upper;
      SliceWithin(before, upper, loc, o, l.len);
      SliceWithin(after, upper + size, loc + size, o, l.len);
    } else {
      assert loc + size <= l.off;
      SliceFrom(before, loc + size, l.off, l.len);
      SliceFrom(after, loc + size, l.off, l.len);
    }
  }

  // ---------- items ----------

  /** Two line pointers name the same item: same length, flags and bytes. */
  ghost predicate SameItem(before: seq<byte>, l: ItemId, after: seq<byte>, m: ItemId) {
    && m.len == l.len && m.flags == l.flags
    && l.off + l.len <= |before| && m.off + m.len <= |after|
    && after[m.off..m.off + m.len] == before[l.off..l.off + l.len]
  }

  /** The item at position `i` is found, unchanged, at position `j` afterwards. */
  ghost predicate ItemKept(lines: seq<ItemId>, before: seq<byte>, lines': seq<ItemId>, after: seq<byte>, i: nat, j: int)
    requires i < |lines|
  {
    !lines[i].Recyclable() ==> 0 <= j < |lines'| && SameItem(before, lines[i], after, lines'[j])
  }

  /** Position of an item after a new one was put in at `k`. */
  function Later(i: nat, k: nat): nat {
    if i < k then i else i + 1
  }

  /** Position of an item after the one at `k` was deleted. */
  function Earlier(i: nat, k: nat): int {
    if i < k then i else i - 1
  }

  /** Every item is kept, those from `k` on one position later. */
  ghost predicate AllLater(lines: seq<ItemId>, before: seq<byte>, lines': seq<ItemId>, after: seq<byte>, k: nat) {
    forall i :: 0 <= i < |lines| ==> ItemKept(lines, before, lines', after, i, Later(i, k))
  }

  /** Every item but the one at `k` is kept, those behind it one position earlier. */
  ghost predicate AllEarlier(lines: seq<ItemId>, before: seq<byte>, lines': seq<ItemId>, after: seq<byte>, k: nat) {
    forall i :: 0 <= i < |lines| && i != k ==> ItemKept(lines, before, lines', after, i, Earlier(i, k))
  }

  lemma InsertKeepsItem(lines: seq<ItemId>, lower: nat, upper: nat, special: nat, before: seq<byte>, after: seq<byte>,
                        k: nat, l: ItemId, i: nat)
    requires PageOk(lines, lower, upper, special) && special <= |before| && SameFrom(before, after, upper)
    requires k <= |lines| && i < |lines|
    ensures ItemKept(lines, before, Inserted(lines, k, l), after, i, Later(i, k))
    ensures i != k ==> ItemKept(lines, before, Placed(lines, k, l), after, i, i)
  {
    assert ItemAt(lines, upper, special, i);
    if !lines[i].Recyclable() {
      StillShows(before, after, upper, lines[i], before[lines[i].off..lines[i].off + lines[i].len]);
    }
  }

  lemma DeleteKeepsItem(lines: seq<ItemId>, lower: nat, upper: nat, special: nat, before: seq<byte>, after: seq<byte>,
                        k: nat, s: seq<ItemId>, i: nat)
    requires PageOk(lines, lower, upper, special) && special <= |before| && k < |lines|
    requires IsDeleted(s, lines, k)
    requires MovedUp(before, after, upper, lines[k].off, AlignUp(lines[k].len, MAX_ALIGNMENT))
    requires i < |lines| && i != k
    ensures ItemKept(lines, before, s, after, i, Earlier(i, k))
  {
    var l, d, j := lines[i], lines[k], Earlier(i, k);
    assert ItemAt(lines, upper, special, i) && ItemAt(lines, upper, special, k) && Apart(lines, i, k);
    assert ShiftedAt(s, Remaining(lines, k), d.off, AlignUp(d.len, MAX_ALIGNMENT), 0, j) && Remaining(lines, k)[j] == l;
    if !l.Recyclable() {
      DeleteKeepsContent(before, after, l, d, upper, special, before[l.off..l.off + l.len]);
    }
  }

  /** A recyclable pointer left behind with offset 0 is moved by an insertion
      that is undone: inserting 16 bytes behind it and deleting them again. */
  lemma StalePointer()
    ensures var lines, l := [ItemId(0, 0, 0)], ItemId(8176, 16, 1);
            && PageOk(lines, 12, 8192, 8192) && PageOk(Inserted(lines, 1, l), 16, 8176, 8192)
            && IsDeleted([ItemId(16, 0, 0)], Inserted(lines, 1, l), 1)
            && [ItemId(16, 0, 0)] != lines
  {
    var lines, l := [ItemId(0, 0, 0)], ItemId(8176, 16, 1);
    AlignUpLeast(16, MAX_ALIGNMENT, 16);
    InsertKeepsPage(lines, 12, 8192, 8192, 1, l, Inserted(lines, 1, l));
    assert Remaining(Inserted(lines, 1, l), 1) == lines;
    assert ShiftedAt([ItemId(16, 0, 0)], lines, 8176, 16, 0, 0);
  }

  /** Inserting at `k` and deleting `k` again restores every line pointer that
      holds an item, and all of them if no recyclable pointer is stale: one
      whose left-over offset lies at or below the place of the new item. */
  lemma InsertDelete(lines: seq<ItemId>, lower: nat, upper: nat, special: nat, k: nat, l: ItemId, s: seq<ItemId>)
    requires PageOk(lines, lower, upper, special) && k <= |lines| && l.Limit() == upper
    requires IsDeleted(s, Inserted(lines, k, l), k)
    ensures |s| == |lines|
    ensures forall i :: 0 <= i < |lines| && !lines[i].Recyclable() ==> s[i] == lines[i]
    ensures s == lines <==> l.len == 0 || forall i :: 0 <= i < |lines| ==> lines[i].off > l.off
  {
    var t := Inserted(lines, k, l);
    var r, size := Remaining(t, k), AlignUp(l.len, MAX_ALIGNMENT);
    assert r == lines;
    forall i | 0 <= i < |lines|
      ensures s[i] == Shift(lines[i], l.off, size)
      ensures !lines[i].Recyclable() ==> s[i] == lines[i]
    {
      assert ShiftedAt(s, r, l.off, size, 0, i) && ItemAt(lines, upper, special, i);
    }
    if s == lines && l.len > 0 {
      forall i | 0 <= i < |lines|
        ensures lines[i].off > l.off
      {
        assert lines[i] == Shift(lines[i], l.off, size);
      }
    }
  }
}
