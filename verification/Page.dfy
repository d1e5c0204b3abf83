/** Slotted pages in place, after storage/page/bufpage.c. */
module Page {
  import opened Bits
  import opened PageLayout
  import opened PageCompaction
  import opened Storage

  const INVALID_OFFSET_NUMBER: nat := 0
  /** Slots for line pointers: as many as a page can hold, and the one behind. */
  const SLOTS: nat := 2047

  class SlottedPage {
    const bytes: array<byte>
    const linp: array<ItemId>
    var pdLower: nat
    var pdUpper: nat
    var pdSpecial: nat

    /** `PAGE_GET_MAX_OFFSET_NUMBER`. */
    function Count(): nat
      reads this
      requires pdLower >= HEADER
    {
      (pdLower - HEADER) / SIZEOF_ITEMID
    }

    ghost predicate Shape()
      reads this
    {
      && bytes.Length == BLCKSZ && linp.Length == SLOTS && bytes as object != linp as object
      && HEADER <= pdLower && Count() < SLOTS
    }

    /** The line pointers in use, in order. */
    ghost function Lines(): seq<ItemId>
      reads this, linp
      requires Shape()
    {
      linp[..Count()]
    }

    ghost predicate Valid()
      reads this, linp
    {
      Shape() && PageOk(Lines(), pdLower, pdUpper, pdSpecial)
    }

    /** `page_init`; the contents of the page are whatever was there. Its own
        assertions admit special spaces whose aligned size leaves no room for
        the header; the page is valid exactly for the others. */
    constructor (pageSize: nat, specialSize: nat)
      requires pageSize == BLCKSZ && pageSize > specialSize + HEADER
      ensures Shape() && Lines() == [] && fresh(bytes) && fresh(linp)
      ensures pdUpper == pdSpecial == BLCKSZ - AlignUp(specialSize, MAX_ALIGNMENT)
      ensures Valid() <==> specialSize <= BLCKSZ - MAX_ALIGNMENT
    {
      bytes := new byte[BLCKSZ](_ => 0);
      linp := new ItemId[SLOTS](_ => ItemId(0, 0, 0));
      var aligned := AlignUp(specialSize, MAX_ALIGNMENT);
      AlignUpLeast(specialSize, MAX_ALIGNMENT, BLCKSZ);
      if specialSize <= BLCKSZ - MAX_ALIGNMENT {
        AlignUpLeast(specialSize, MAX_ALIGNMENT, BLCKSZ - MAX_ALIGNMENT);
      }
      pdLower := HEADER;
      pdUpper := pageSize - aligned;
      pdSpecial := pageSize - aligned;
    }

    /** `page_get_free_space`: so many bytes and a line pointer fit, and no more. */
    method GetFreeSpace() returns (space: nat)
      requires Valid()
      ensures space > 0 ==> pdLower + SIZEOF_ITEMID + space <= pdUpper
      ensures pdUpper < pdLower + SIZEOF_ITEMID + (space + 1)
    {
      space := pdUpper - pdLower;
      if space < SIZEOF_ITEMID {
        return 0;
      }
      space := space - SIZEOF_ITEMID;
    }

    /** The search for the first recyclable line pointer. */
    method FindRecyclable() returns (offsetNum: nat)
      requires Valid()
      ensures 1 <= offsetNum <= Count() + 1
      ensures forall i :: 0 <= i < offsetNum - 1 ==> !Lines()[i].Recyclable()
      ensures offsetNum <= Count() ==> Lines()[offsetNum - 1].Recyclable()
      ensures forall i :: 0 <= i < Count() ==>
                (Lines()[i].Recyclable() <==> Lines()[i].len == 0 == Lines()[i].flags % 2)
    {
      offsetNum := 1;
      while offsetNum < Count() + 1
        invariant 1 <= offsetNum <= Count() + 1
        invariant forall i :: 0 <= i < offsetNum - 1 ==> !linp[i].Recyclable()
      {
        if linp[offsetNum - 1].Recyclable() {
          break;
        }
        offsetNum := offsetNum + 1;
      }
    }

    /** The last part of `page_add_item`: the item goes below `pd_upper`. */
    method PutItem(item: seq<byte>, offsetNum: nat, lower: nat, flags: nat)
      requires Shape() && pdUpper <= BLCKSZ && 1 <= offsetNum < SLOTS
      requires AlignUp(|item|, MAX_ALIGNMENT) <= pdUpper && HEADER <= lower && (lower - HEADER) / SIZEOF_ITEMID < SLOTS
      modifies this`pdLower, this`pdUpper, bytes, linp
      ensures Shape() && pdLower == lower && pdUpper == old(pdUpper) - AlignUp(|item|, MAX_ALIGNMENT)
      ensures linp[..] == old(linp[..])[offsetNum - 1 := ItemId(pdUpper, |item|, flags)]
      ensures SameFrom(old(bytes[..]), bytes[..], old(pdUpper))
      ensures Shows(bytes[..], ItemId(pdUpper, |item|, flags), item)
      ensures WroteAt(old(bytes[..]), bytes[..], pdUpper, item)
    {
      var upper := pdUpper - AlignUp(|item|, MAX_ALIGNMENT);
      linp[offsetNum - 1] := ItemId(upper, |item|, flags);
      CopyIn(bytes, upper, item);
      assert bytes[pdUpper..] == bytes[upper + |item|..][pdUpper - upper - |item|..];
      pdLower, pdUpper := lower, upper;
    }

    /** The shuffle: line pointers from `offset_num` on move down by one. */
    method Shuffle(offsetNum: nat)
      requires Shape() && 1 <= offsetNum <= Count() + 1
      modifies linp
      ensures linp[..Count() + 1] == Parting(old(linp[..Count() + 1]), offsetNum - 1)
    {
      ghost var lines := linp[..Count() + 1];
      var i := Count();
      while i >= offsetNum
        invariant offsetNum - 1 <= i <= Count()
        invariant linp[..Count() + 1] == Parting(lines, i)
      {
        PartingNext(lines, i);
        assert linp[i - 1] == linp[..Count() + 1][i - 1];
        linp[i] := linp[i - 1];
        i := i - 1;
      }
    }

    /** `page_add_item` where no offset number is passed in: the first recyclable
        line pointer is taken, or a new one. */
    method AddItemAnywhere(item: seq<byte>, flags: nat) returns (offsetNum: nat)
      requires Valid() && flags < 4
      modifies this`pdLower, this`pdUpper, bytes, linp
      ensures Valid() && pdSpecial == old(pdSpecial)
      ensures var more := if exists i :: 0 <= i < |old(Lines())| && old(Lines())[i].Recyclable() then 0
              else SIZEOF_ITEMID;
              offsetNum != INVALID_OFFSET_NUMBER
              <==> old(pdLower) + more + AlignUp(|item|, MAX_ALIGNMENT) <= old(pdUpper)
      ensures offsetNum == INVALID_OFFSET_NUMBER ==>
                Lines() == old(Lines()) && pdUpper == old(pdUpper) && bytes[..] == old(bytes[..])
      ensures offsetNum != INVALID_OFFSET_NUMBER ==>
                && 1 <= offsetNum <= |old(Lines())| + 1
                && (forall i :: 0 <= i < offsetNum - 1 ==> !old(Lines())[i].Recyclable())
                && (offsetNum <= |old(Lines())| ==> old(Lines())[offsetNum - 1].Recyclable())
                && pdUpper == old(pdUpper) - AlignUp(|item|, MAX_ALIGNMENT)
                && Lines() == Placed(old(Lines()), offsetNum - 1, ItemId(pdUpper, |item|, flags))
                && WroteAt(old(bytes[..]), bytes[..], pdUpper, item)
                && forall i :: 0 <= i < |old(Lines())| && i != offsetNum - 1 ==>
                     ItemKept(old(Lines()), old(bytes[..]), Lines(), bytes[..], i, i)
    {
      offsetNum := FindRecyclable();
      var lower := if offsetNum == Count() + 1 then pdLower + SIZEOF_ITEMID else pdLower;
      if lower + AlignUp(|item|, MAX_ALIGNMENT) > pdUpper {
        return INVALID_OFFSET_NUMBER;
      }
      PlaceAt(item, offsetNum, lower, flags);
    }

    /** The item is stored in a line pointer not in use, or in a new one. */
    method PlaceAt(item: seq<byte>, offsetNum: nat, lower: nat, flags: nat)
      requires Valid() && flags < 4 && 1 <= offsetNum <= Count() + 1
      requires offsetNum <= Count() ==> linp[offsetNum - 1].Recyclable()
      requires lower == if offsetNum == Count() + 1 then pdLower + SIZEOF_ITEMID else pdLower
      requires lower + AlignUp(|item|, MAX_ALIGNMENT) <= pdUpper
      modifies this`pdLower, this`pdUpper, bytes, linp
      ensures Valid() && pdUpper == old(pdUpper) - AlignUp(|item|, MAX_ALIGNMENT)
      ensures Lines() == Placed(old(Lines()), offsetNum - 1, ItemId(pdUpper, |item|, flags))
      ensures Shows(bytes[..], ItemId(pdUpper, |item|, flags), item)
              && SameFrom(old(bytes[..]), bytes[..], old(pdUpper))
              && WroteAt(old(bytes[..]), bytes[..], pdUpper, item)
      ensures forall i :: 0 <= i < |old(Lines())| && i != offsetNum - 1 ==>
                ItemKept(old(Lines()), old(bytes[..]), Lines(), bytes[..], i, i)
    {
      ghost var lines := Lines();
      ghost var l := ItemId(pdUpper - AlignUp(|item|, MAX_ALIGNMENT), |item|, flags);
      InsertKeepsPage(lines, pdLower, pdUpper, pdSpecial, offsetNum - 1, l, Placed(lines, offsetNum - 1, l));
      ghost var before, upper := bytes[..], pdUpper;
      PutItem(item, offsetNum, lower, flags);
      assert Lines() == Placed(lines, offsetNum - 1, l);
      PlacedKeepsItems(lines, old(pdLower), upper, pdSpecial, before, bytes[..], offsetNum - 1, l);
    }

    /** Line pointers move up, and the item is stored. */
    method InsertAt(item: seq<byte>, offsetNum: nat, flags: nat)
      requires Shape() && pdUpper <= BLCKSZ && flags < 4 && 1 <= offsetNum <= Count() + 1
      requires pdLower + SIZEOF_ITEMID + AlignUp(|item|, MAX_ALIGNMENT) <= pdUpper
      modifies this`pdLower, this`pdUpper, bytes, linp
      ensures Shape() && pdLower == old(pdLower) + SIZEOF_ITEMID
              && pdUpper == old(pdUpper) - AlignUp(|item|, MAX_ALIGNMENT)
      ensures Lines() == Inserted(old(Lines()), offsetNum - 1, ItemId(pdUpper, |item|, flags))
      ensures Shows(bytes[..], ItemId(pdUpper, |item|, flags), item)
      ensures SameFrom(old(bytes[..]), bytes[..], old(pdUpper))
      ensures WroteAt(old(bytes[..]), bytes[..], pdUpper, item)
    {
      ghost var lines := Lines();
      var n := Count();
      ghost var full := linp[..n + 1];
      assert full[..n] == lines;
      Shuffle(offsetNum);
      ghost var mid := linp[..];
      assert mid[..n + 1] == Parting(full, offsetNum - 1);
      PutItem(item, offsetNum, pdLower + SIZEOF_ITEMID, flags);
      ghost var l := ItemId(pdUpper, |item|, flags);
      assert linp[..n + 1] == mid[..n + 1][offsetNum - 1 := l];
      ShuffledIn(lines, full, offsetNum - 1, l);
    }

    /** `page_add_item` at a given offset number in shuffle mode, for which the
        caller must have made sure of room. */
    method AddItemShuffled(item: seq<byte>, offsetNum: nat, flags: nat)
      requires Valid() && flags < 4 && 1 <= offsetNum <= Count() + 1
      requires pdLower + SIZEOF_ITEMID + AlignUp(|item|, MAX_ALIGNMENT) <= pdUpper
      modifies this`pdLower, this`pdUpper, bytes, linp
      ensures Valid() && pdSpecial == old(pdSpecial)
      ensures pdUpper == old(pdUpper) - AlignUp(|item|, MAX_ALIGNMENT)
      ensures Lines() == Inserted(old(Lines()), offsetNum - 1, ItemId(pdUpper, |item|, flags))
      ensures Shows(bytes[..], ItemId(pdUpper, |item|, flags), item)
      ensures WroteAt(old(bytes[..]), bytes[..], pdUpper, item)
      ensures pdLower == old(pdLower) + SIZEOF_ITEMID
      ensures AllLater(old(Lines()), old(bytes[..]), Lines(), bytes[..], offsetNum - 1)
    {
      ghost var lines, before, upper := Lines(), bytes[..], pdUpper;
      ghost var l := ItemId(pdUpper - AlignUp(|item|, MAX_ALIGNMENT), |item|, flags);
      InsertKeepsPage(lines, pdLower, pdUpper, pdSpecial, offsetNum - 1, l, Inserted(lines, offsetNum - 1, l));
      InsertAt(item, offsetNum, flags);
      InsertedKeepsItems(lines, old(pdLower), upper, pdSpecial, before, bytes[..], offsetNum - 1, l);
    }

    /** `page_add_item` at a given offset number in overwrite mode: an error if
        the line pointer there is in use, whatever it is. */
    method AddItemOverwriting(item: seq<byte>, offsetNum: nat, flags: nat) returns (r: nat)
      requires Valid() && flags < 4 && 1 <= offsetNum <= Count() + 1
      modifies this`pdLower, this`pdUpper, bytes, linp
      ensures Valid() && pdSpecial == old(pdSpecial)
      ensures r == if old(linp[offsetNum - 1]).Recyclable()
                      && old(pdLower) + (if offsetNum == old(Count()) + 1 then SIZEOF_ITEMID else 0)
                         + AlignUp(|item|, MAX_ALIGNMENT) <= old(pdUpper)
                   then offsetNum else INVALID_OFFSET_NUMBER
      ensures r == INVALID_OFFSET_NUMBER ==>
                Lines() == old(Lines()) && pdUpper == old(pdUpper) && bytes[..] == old(bytes[..])
      ensures r != INVALID_OFFSET_NUMBER ==>
                && pdUpper == old(pdUpper) - AlignUp(|item|, MAX_ALIGNMENT)
                && Lines() == Placed(old(Lines()), offsetNum - 1, ItemId(pdUpper, |item|, flags))
                && WroteAt(old(bytes[..]), bytes[..], pdUpper, item)
                && forall i :: 0 <= i < |old(Lines())| && i != offsetNum - 1 ==>
                     ItemKept(old(Lines()), old(bytes[..]), Lines(), bytes[..], i, i)
    {
      if linp[offsetNum - 1].Used() || linp[offsetNum - 1].len != 0 {
        return INVALID_OFFSET_NUMBER;
      }
      var lower := if offsetNum == Count() + 1 then pdLower + SIZEOF_ITEMID else pdLower;
      if lower + AlignUp(|item|, MAX_ALIGNMENT) > pdUpper {
        return INVALID_OFFSET_NUMBER;
      }
      PlaceAt(item, offsetNum, lower, flags);
      r := offsetNum;
    }

    /** Closes the gap that line pointer `offidx` leaves. */
    method DropLine(offidx: nat)
      requires Shape() && offidx < Count()
      modifies linp
      ensures linp[..Count() - 1] == Remaining(old(Lines()), offidx)
    {
      ghost var lines := Lines();
      for i := offidx to Count() - 1
        invariant Lines() == Closing(lines, offidx, i)
      {
        ClosingNext(lines, offidx, i);
        assert linp[i + 1] == Lines()[i + 1];
        linp[i] := linp[i + 1];
      }
      assert linp[..Count() - 1] == Lines()[..Count() - 1];
    }

    /** `page_index_tuple_delete_adjust_line_pointers`. */
    method AdjustLines(offset: nat, size: nat)
      requires Shape()
      modifies linp
      ensures ShiftedFrom(Lines(), old(Lines()), offset, size, 0)
    {
      ghost var lines := Lines();
      var i := Count();
      assert forall j :: 0 <= j < |lines| ==> ShiftedAt(lines, lines, offset, size, i, j);
      while i > 0
        invariant 0 <= i <= Count() && ShiftedFrom(Lines(), lines, offset, size, i)
      {
        i := i - 1;
        ghost var was := Lines();
        assert ShiftedAt(was, lines, offset, size, i + 1, i);
        if linp[i].off <= offset {
          linp[i] := linp[i].(off := linp[i].off + size);
        }
        forall j | 0 <= j < |lines|
          ensures ShiftedAt(Lines(), lines, offset, size, i, j)
        {
          assert ShiftedAt(was, lines, offset, size, i + 1, j);
        }
      }
    }

    /** `page_index_tuple_delete`: the item's pointer and storage go, storage
        below it closes up, and every other item keeps its place and bytes. A
        pointer in use lies in the item space; the left-over offset of another
        must too, because the length of the move is taken from it. */
    method IndexTupleDelete(offsetNum: nat)
      requires Valid() && 1 <= offsetNum <= Count()
      requires Lines()[offsetNum - 1].Recyclable() ==> pdUpper <= Lines()[offsetNum - 1].off <= BLCKSZ
      modifies this`pdLower, this`pdUpper, bytes, linp
      ensures Valid() && pdSpecial == old(pdSpecial)
      ensures IsDeleted(Lines(), old(Lines()), offsetNum - 1)
      ensures pdLower == old(pdLower) - SIZEOF_ITEMID
      ensures pdUpper == old(pdUpper) + AlignUp(old(Lines())[offsetNum - 1].len, MAX_ALIGNMENT)
      ensures var d := old(Lines())[offsetNum - 1];
              Slid(old(bytes[..]), bytes[..], old(pdUpper), d.off, AlignUp(d.len, MAX_ALIGNMENT))
      ensures AllEarlier(old(Lines()), old(bytes[..]), Lines(), bytes[..], offsetNum - 1)
    {
      ghost var lines, before, upper := Lines(), bytes[..], pdUpper;
      var offidx := offsetNum - 1;
      var size, locn := AlignUp(linp[offidx].len, MAX_ALIGNMENT), linp[offidx].off;
      assert ItemAt(lines, pdUpper, pdSpecial, offidx);
      AlignUpLeast(0, MAX_ALIGNMENT, 0);
      DropLine(offidx);
      SlideUp(locn, size);
      CloseUp(locn, size, lines, offidx);
      DeletedKeepsItems(lines, old(pdLower), upper, pdSpecial, before, bytes[..], offidx, Lines());
    }

    /** Adding an item at `offsetNum` in shuffle mode and deleting it again: the
        boundaries and every other item, its line pointer and its bytes, are as
        before; all line pointers are, exactly if none that is recyclable has a
        left-over offset at or below the place of the item. */
    method AddAndDelete(item: seq<byte>, offsetNum: nat, flags: nat)
      requires Valid() && flags < 4 && 1 <= offsetNum <= Count() + 1
      requires pdLower + SIZEOF_ITEMID + AlignUp(|item|, MAX_ALIGNMENT) <= pdUpper
      modifies this`pdLower, this`pdUpper, bytes, linp
      ensures Valid() && pdLower == old(pdLower) && pdUpper == old(pdUpper) && pdSpecial == old(pdSpecial)
      ensures |Lines()| == |old(Lines())|
      ensures forall i :: 0 <= i < |Lines()| ==>
                Restored(old(Lines()), old(bytes[..]), Lines(), bytes[..], i)
      ensures Lines() == old(Lines()) <==>
                |item| == 0 || forall i :: 0 <= i < |old(Lines())| ==>
                  old(Lines())[i].off > old(pdUpper) - AlignUp(|item|, MAX_ALIGNMENT)
    {
      ghost var lines, data0, lower, upper, k := Lines(), bytes[..], pdLower, pdUpper, offsetNum - 1;
      ghost var l := ItemId(pdUpper - AlignUp(|item|, MAX_ALIGNMENT), |item|, flags);
      AddItemShuffled(item, offsetNum, flags);
      ghost var data1 := bytes[..];
      assert Lines() == Inserted(lines, k, l) && Lines()[k] == l;
      IndexTupleDelete(offsetNum);
      RoundTrip(lines, lower, upper, pdSpecial, data0, data1, k, l, Lines(), bytes[..]);
    }

    /** Storage below `locn` moves up over `size` bytes. */
    method SlideUp(locn: nat, size: nat)
      requires pdUpper <= locn && locn + size <= bytes.Length
      modifies bytes
      ensures Slid(old(bytes[..]), bytes[..], pdUpper, locn, size)
      ensures MovedUp(old(bytes[..]), bytes[..], pdUpper, locn, size)
    {
      if locn != pdUpper {
        MoveBytes(bytes, pdUpper + size, pdUpper, locn - pdUpper);
      }
      CopyIsMoveUp(old(bytes[..]), bytes[..], pdUpper, locn, size);
    }

    /** The free space boundaries move, and so do the line pointers that remain. */
    method CloseUp(locn: nat, size: nat, ghost lines: seq<ItemId>, ghost offidx: nat)
      requires Shape() && PageOk(lines, pdLower, pdUpper, pdSpecial) && offidx < Count()
      requires locn == lines[offidx].off && size == AlignUp(lines[offidx].len, MAX_ALIGNMENT)
      requires linp[..Count() - 1] == Remaining(lines, offidx)
      modifies this`pdLower, this`pdUpper, linp
      ensures Valid() && IsDeleted(Lines(), lines, offidx)
      ensures pdLower == old(pdLower) - SIZEOF_ITEMID && pdUpper == old(pdUpper) + size
    {
      ghost var n := Count();
      pdUpper, pdLower := pdUpper + size, pdLower - SIZEOF_ITEMID;
      assert Count() == n - 1;
      ghost var rest := Lines();
      if pdLower > HEADER {
        AdjustLines(locn, size);
      }
      ghost var s := Lines();
      assert ShiftedFrom(s, rest, locn, size, 0);
      DeleteKeepsPage(lines, old(pdLower), old(pdUpper), pdSpecial, offidx, s);
    }

    /** One round of the loop that gathers the used line pointers. */
    method GatherOne(base0: seq<nat>, i: nat, ghost lines: seq<ItemId>) returns (base: seq<nat>)
      requires Shape() && i < Count() && Gathered(Lines(), lines, base0, i)
      modifies linp
      ensures Gathered(Lines(), lines, base, i + 1)
    {
      ghost var was := Lines();
      assert GatherAt(was, lines, i, i);
      base := base0;
      if linp[i].Used() {
        base := base + [i];
      } else if linp[i].len > 0 {
        linp[i] := linp[i].(len := 0);
      }
      GatherStep(was, lines, base0, i, Lines(), base);
    }

    /** The loop that gathers the used line pointers and deallocates the rest. */
    method GatherUsed() returns (base: seq<nat>)
      requires Shape()
      modifies linp
      ensures AllFreed(Lines(), old(Lines()))
      ensures Indices(Lines(), base) && Complete(Lines(), base)
      ensures Need(Lines(), base) == UsedRoom(old(Lines()))
    {
      ghost var lines := Lines();
      base := [];
      assert forall j :: 0 <= j < |lines| ==> GatherAt(lines, lines, 0, j);
      for i := 0 to Count()
        invariant Gathered(Lines(), lines, base, i)
      {
        base := GatherOne(base, i, lines);
      }
      assert lines[..Count()] == lines;
      GatherEnd(Lines(), lines, base);
    }

    /** `page_repair_fragmentation`: compacts the page in place. Every used line
        pointer names the same bytes as before, and all free space is gathered. */
    method RepairFragmentation()
      requires Valid()
      modifies this`pdUpper, bytes, linp
      ensures Valid() && pdLower == old(pdLower) && pdSpecial == old(pdSpecial)
      ensures pdUpper == pdSpecial - UsedRoom(old(Lines())) >= old(pdUpper)
      ensures |Lines()| == |old(Lines())|
      ensures forall i :: 0 <= i < |old(Lines())| ==> Repaired(old(Lines()), old(bytes[..]), Lines(), bytes[..], i)
      ensures forall i, j :: 0 <= i < |old(Lines())| && 0 <= j < |old(Lines())| ==> Sequent(old(Lines()), Lines(), i, j)
    {
      ghost var lines, data := Lines(), bytes[..];
      var base := GatherUsed();
      ghost var freed := Lines();
      SortFacts(freed, base);
      SortNeed(freed, base);
      var order := SortItems(base);
      SortedIndices(freed, base, order);
      CompactStart(lines, pdLower, pdUpper, pdSpecial, freed, data, order);
      pdUpper := pdSpecial;
      Compactify(order, lines, old(pdUpper), Work(freed, data, pdSpecial, order, freed, data, pdSpecial));
    }

    /** `qsort` of the gathered line pointers, in descending order of offset. */
    method SortItems(base: seq<nat>) returns (order: seq<nat>)
      requires Shape() && forall p :: 0 <= p < |base| ==> base[p] < Count()
      ensures order == Sort(Lines(), base)
    {
      order := Sort(linp[..Count()], base);
    }

    /** One item moves to the end of the space not yet filled. */
    method MoveItem(x: nat)
      requires Shape() && x < Count() && pdUpper <= BLCKSZ
      requires linp[x].off + Room(linp[x]) <= pdUpper
      modifies this`pdUpper, bytes, linp
      ensures pdUpper == old(pdUpper) - Room(old(linp[x]))
      ensures Lines() == old(Lines())[x := old(linp[x]).(off := pdUpper)]
      ensures Copied(old(bytes[..]), bytes[..], pdUpper, old(linp[x]).off, old(linp[x]).len)
    {
      var alignedSize := AlignUp(linp[x].len, MAX_ALIGNMENT);
      var upper := pdUpper - alignedSize;
      MoveBytes(bytes, upper, linp[x].off, linp[x].len);
      linp[x] := linp[x].(off := upper);
      pdUpper := upper;
    }

    /** One round of the loop that moves the items. */
    method CompactOne(order: seq<nat>, i: nat, ghost lines: seq<ItemId>, ghost upper0: nat, ghost w: Work)
      returns (ghost w': Work)
      requires Shape() && pdSpecial <= BLCKSZ && PageOk(lines, pdLower, upper0, pdSpecial)
      requires w.order == order && w.special == pdSpecial && AllFreed(w.lines0, lines) && i < |order|
      requires w.lines == Lines() && w.data == bytes[..] && w.upper == pdUpper
      requires Compacted(w, i) && UnusedKept(lines, w)
      modifies this`pdUpper, bytes, linp
      ensures w' == w.(lines := Lines(), data := bytes[..], upper := pdUpper)
      ensures Compacted(w', i + 1) && upper0 <= pdUpper && UnusedKept(lines, w')
    {
      NextFits(w, i);
      StaysAbove(lines, pdLower, upper0, w, i);
      ghost var l := linp[order[i]];
      assert l == w.lines[order[i]];
      MoveItem(order[i]);
      w' := CompactNext(lines, w, i, l, Lines(), bytes[..], pdUpper);
    }

    /** The loop that moves the items. */
    method MoveAll(order: seq<nat>, ghost lines: seq<ItemId>, ghost upper0: nat, ghost w0: Work) returns (ghost w: Work)
      requires Shape() && pdSpecial <= BLCKSZ && PageOk(lines, pdLower, upper0, pdSpecial)
      requires w0 == Work(Lines(), bytes[..], pdSpecial, order, Lines(), bytes[..], pdUpper) && upper0 <= pdUpper
      requires Compacted(w0, 0) && AllFreed(w0.lines0, lines) && UnusedKept(lines, w0)
      modifies this`pdUpper, bytes, linp
      ensures w == w0.(lines := Lines(), data := bytes[..], upper := pdUpper)
      ensures Compacted(w, |order|) && upper0 <= pdUpper && UnusedKept(lines, w)
    {
      w := w0;
      for i := 0 to |order|
        invariant w == w0.(lines := Lines(), data := bytes[..], upper := pdUpper)
        invariant Compacted(w, i) && upper0 <= pdUpper && UnusedKept(lines, w)
      {
        w := CompactOne(order, i, lines, upper0, w);
      }
    }

    /** All used items move to the end of the page, each with its bytes. */
    method Compactify(order: seq<nat>, ghost lines: seq<ItemId>, ghost upper0: nat, ghost w0: Work)
      requires Shape() && pdSpecial <= BLCKSZ && PageOk(lines, pdLower, upper0, pdSpecial)
      requires w0 == Work(Lines(), bytes[..], pdSpecial, order, Lines(), bytes[..], pdUpper)
      requires Compacted(w0, 0) && AllFreed(w0.lines0, lines) && Complete(w0.lines0, order)
      modifies this`pdUpper, bytes, linp
      ensures PageOk(Lines(), pdLower, pdUpper, pdSpecial)
      ensures pdUpper == pdSpecial - Need(w0.lines0, order) >= upper0
      ensures forall i :: 0 <= i < |lines| ==> Repaired(lines, w0.data0, Lines(), bytes[..], i)
      ensures forall i, j :: 0 <= i < |lines| && 0 <= j < |lines| ==> Sequent(lines, Lines(), i, j)
    {
      ghost var w := MoveAll(order, lines, upper0, w0);
      CompactEnd(lines, pdLower, upper0, w);
      assert order[..|order|] == order;
    }
  }

  /** The line pointers while those from the last on move up, down to the `i`-th;
      the last entry is not in use yet. */
  ghost function Parting(lines: seq<ItemId>, i: nat): seq<ItemId>
    requires i < |lines|
  {
    lines[..i + 1] + lines[i..|lines| - 1]
  }

  lemma PartingNext(lines: seq<ItemId>, i: nat)
    requires 0 < i < |lines|
    ensures Parting(lines, i)[i - 1] == lines[i - 1]
    ensures Parting(lines, i - 1) == Parting(lines, i)[i := lines[i - 1]]
  {
  }

  /** The line pointers while those behind `k` move down, up to the `i`-th. */
  ghost function Closing(lines: seq<ItemId>, k: nat, i: nat): seq<ItemId>
    requires k <= i < |lines|
  {
    lines[..k] + lines[k + 1..i + 1] + lines[i..]
  }

  lemma ClosingNext(lines: seq<ItemId>, k: nat, i: nat)
    requires k <= i < |lines| - 1
    ensures Closing(lines, k, i)[i + 1] == lines[i + 1]
    ensures Closing(lines, k, i + 1) == Closing(lines, k, i)[i := lines[i + 1]]
  {
  }

  lemma PlacedKeepsItems(lines: seq<ItemId>, lower: nat, upper: nat, special: nat, before: seq<byte>, after: seq<byte>,
                         k: nat, l: ItemId)
    requires PageOk(lines, lower, upper, special) && special <= |before| && SameFrom(before, after, upper)
             && k <= |lines|
    ensures var p := Placed(lines, k, l);
            forall i :: 0 <= i < |lines| && i != k ==> ItemKept(lines, before, p, after, i, i)
  {
    var p := Placed(lines, k, l);
    forall i | 0 <= i < |lines| && i != k
      ensures ItemKept(lines, before, p, after, i, i)
    {
      InsertKeepsItem(lines, lower, upper, special, before, after, k, l, i);
    }
  }

  lemma InsertedKeepsItems(lines: seq<ItemId>, lower: nat, upper: nat, special: nat, before: seq<byte>,
                           after: seq<byte>,
                           k: nat, l: ItemId)
    requires PageOk(lines, lower, upper, special) && special <= |before| && SameFrom(before, after, upper)
             && k <= |lines|
    ensures AllLater(lines, before, Inserted(lines, k, l), after, k)
  {
    var p := Inserted(lines, k, l);
    forall i | 0 <= i < |lines|
      ensures ItemKept(lines, before, p, after, i, Later(i, k))
    {
      InsertKeepsItem(lines, lower, upper, special, before, after, k, l, i);
    }
  }

  lemma DeletedKeepsItems(lines: seq<ItemId>, lower: nat, upper: nat, special: nat, before: seq<byte>, after: seq<byte>,
                          k: nat, s: seq<ItemId>)
    requires PageOk(lines, lower, upper, special) && special <= |before| && k < |lines|
    requires IsDeleted(s, lines, k)
    requires MovedUp(before, after, upper, lines[k].off, AlignUp(lines[k].len, MAX_ALIGNMENT))
    ensures AllEarlier(lines, before, s, after, k)
  {
    forall i | 0 <= i < |lines| && i != k
      ensures ItemKept(lines, before, s, after, i, Earlier(i, k))
    {
      DeleteKeepsItem(lines, lower, upper, special, before, after, k, s, i);
    }
  }

  /** A special space that the assertion of `page_init` admits, and no room for the header. */
  method SpecialTooLarge() returns (p: SlottedPage)
    ensures fresh(p) && p.pdUpper == 0 < p.pdLower && !p.Valid()
  {
    AlignUpLeast(8180, MAX_ALIGNMENT, BLCKSZ);
    p := new SlottedPage(BLCKSZ, 8180);
  }

  /** The item at position `i` has its old line pointer and bytes again. */
  ghost predicate Restored(lines: seq<ItemId>, before: seq<byte>, lines': seq<ItemId>, after: seq<byte>, i: nat)
    requires i < |lines| == |lines'|
  {
    ItemKept(lines, before, lines', after, i, i) && (!lines[i].Recyclable() ==> lines'[i] == lines[i])
  }

  lemma RoundTrip(lines: seq<ItemId>, lower: nat, upper: nat, special: nat, data: seq<byte>, data1: seq<byte>,
                  k: nat, l: ItemId, s: seq<ItemId>, data2: seq<byte>)
    requires PageOk(lines, lower, upper, special) && k <= |lines| && l.Limit() == upper
    requires IsDeleted(s, Inserted(lines, k, l), k)
    requires AllLater(lines, data, Inserted(lines, k, l), data1, k)
             && AllEarlier(Inserted(lines, k, l), data1, s, data2, k)
    ensures |s| == |lines| && forall i :: 0 <= i < |lines| ==> Restored(lines, data, s, data2, i)
    ensures s == lines <==> l.len == 0 || forall i :: 0 <= i < |lines| ==> lines[i].off > l.off
  {
    InsertDelete(lines, lower, upper, special, k, l, s);
    ThereAndBack(lines, data, Inserted(lines, k, l), data1, s, data2, k);
  }

  lemma ThereAndBack(lines: seq<ItemId>, data: seq<byte>, lines1: seq<ItemId>, data1: seq<byte>, lines2: seq<ItemId>,
                     data2: seq<byte>, k: nat)
    requires k <= |lines| == |lines2| && |lines1| == |lines| + 1
    requires forall i :: 0 <= i < |lines| ==> lines1[Later(i, k)] == lines[i]
    requires forall i :: 0 <= i < |lines| && !lines[i].Recyclable() ==> lines2[i] == lines[i]
    requires AllLater(lines, data, lines1, data1, k) && AllEarlier(lines1, data1, lines2, data2, k)
    ensures forall i :: 0 <= i < |lines| ==> Restored(lines, data, lines2, data2, i)
  {
    forall i | 0 <= i < |lines|
      ensures Restored(lines, data, lines2, data2, i)
    {
      var j := Later(i, k);
      assert ItemKept(lines, data, lines1, data1, i, j) && ItemKept(lines1, data1, lines2, data2, j, Earlier(j, k));
    }
  }

  lemma GatherEnd(cur: seq<ItemId>, lines: seq<ItemId>, base: seq<nat>)
    requires Gathered(cur, lines, base, |lines|)
    ensures AllFreed(cur, lines) && Indices(cur, base) && Complete(cur, base) && Need(cur, base) == UsedRoom(lines)
  {
    forall j | 0 <= j < |lines|
      ensures FreedAt(cur, lines, j)
    {
      assert GatherAt(cur, lines, |lines|, j);
    }
    forall j | 0 <= j < |lines| && lines[j].Used()
      ensures j in base
    {
      assert NamedAt(lines, base, j);
    }
    assert lines[..|lines|] == lines;
    FreedNeed(lines, cur, base);
    FreedIndices(lines, cur, base);
  }

  lemma FreedIndices(lines: seq<ItemId>, freed: seq<ItemId>, base: seq<nat>)
    requires AllFreed(freed, lines) && Indices(lines, base) && Complete(lines, base)
    ensures Indices(freed, base) && Complete(freed, base)
  {
    forall i | 0 <= i < |lines|
      ensures freed[i].Used() <==> lines[i].Used()
    {
      assert FreedAt(freed, lines, i);
    }
  }

  /** Deallocation does not change what the used items need. */
  lemma {:induction false} FreedNeed(lines: seq<ItemId>, freed: seq<ItemId>, base: seq<nat>)
    requires AllFreed(freed, lines) && forall p :: 0 <= p < |base| ==> base[p] < |lines| && lines[base[p]].Used()
    ensures Need(freed, base) == Need(lines, base)
  {
    if base != [] {
      var n := |base| - 1;
      FreedNeed(lines, freed, base[..n]);
      assert FreedAt(freed, lines, base[n]);
    }
  }

  /** Unused line pointers are not touched by the moves. */
  ghost predicate UnusedKept(lines: seq<ItemId>, w: Work) {
    && |w.lines| == |w.lines0| == |lines|
    && forall j :: 0 <= j < |lines| && !lines[j].Used() ==> w.lines[j] == w.lines0[j]
  }

  /** The next move ends no lower than the lowest item of the original page. */
  lemma StaysAbove(lines: seq<ItemId>, lower: nat, upper0: nat, w: Work, n: nat)
    requires PageOk(lines, lower, upper0, w.special) && AllFreed(w.lines0, lines)
    requires Compacted(w, n) && n < |w.order|
    ensures w.order[n] < |w.lines| && w.lines[w.order[n]] == w.lines0[w.order[n]] && w.lines0[w.order[n]].Used()
    ensures lines[w.order[n]].Used()
    ensures upper0 <= w.upper - Room(w.lines[w.order[n]])
  {
    var i := w.order[n];
    assert Pending(w, n) && FreedAt(w.lines0, lines, i) && ItemAt(lines, upper0, w.special, i);
  }

  /** `CompactStep` on what moving one item leaves behind. */
  lemma CompactNext(lines: seq<ItemId>, w: Work, n: nat, l: ItemId, moved: seq<ItemId>, data: seq<byte>, upper: nat)
    returns (w': Work)
    requires Compacted(w, n) && n < |w.order| && UnusedKept(lines, w)
    requires w.order[n] < |w.lines| && l == w.lines[w.order[n]] && lines[w.order[n]].Used()
    requires upper == w.upper - Room(l) && moved == w.lines[w.order[n] := l.(off := upper)]
    requires Copied(w.data, data, upper, l.off, l.len)
    ensures w' == w.(lines := moved, data := data, upper := upper)
    ensures Compacted(w', n + 1) && UnusedKept(lines, w')
  {
    CompactStep(w, n, data);
    w' := Next(w, n, data);
  }

  /** Exactly the bytes from `upper` to `loc` were copied up by `size`. */
  ghost predicate Slid(before: seq<byte>, after: seq<byte>, upper: nat, loc: nat, size: nat) {
    if loc <= upper then after == before else Copied(before, after, upper + size, upper, loc - upper)
  }

  lemma CopyIsMoveUp(before: seq<byte>, after: seq<byte>, upper: nat, loc: nat, size: nat)
    requires upper <= loc && loc + size <= |before|
    requires Slid(before, after, upper, loc, size)
    ensures MovedUp(before, after, upper, loc, size)
  {
    if loc != upper {
      var n := loc - upper;
      assert after[upper + size..loc + size] == before[upper..upper + n];
      assert after[loc + size..] == before[upper + size + n..];
    }
  }

  /** `memmove` within a page: source and destination may overlap. */
  method MoveBytes(a: array<byte>, dst: nat, src: nat, len: nat)
    requires dst + len <= a.Length && src + len <= a.Length
    modifies a
    ensures Copied(old(a[..]), a[..], dst, src, len)
  {
    if dst <= src {
      MoveDown(a, dst, src, len);
    } else {
      MoveUp(a, dst, src, len);
    }
  }

  /** Byte `k` after the bytes from `lo` to `hi` have been copied. */
  ghost predicate ByteMoved(before: seq<byte>, cur: seq<byte>, dst: nat, src: nat, lo: nat, hi: nat, k: nat)
    requires |before| == |cur|
  {
    k < |cur| ==> cur[k] == if lo <= k < hi && 0 <= src - dst + k < |before| then before[src - dst + k] else before[k]
  }

  ghost predicate Moving(before: seq<byte>, cur: seq<byte>, dst: nat, src: nat, lo: nat, hi: nat) {
    |before| == |cur| && forall k :: ByteMoved(before, cur, dst, src, lo, hi, k)
  }

  lemma AllMoved(before: seq<byte>, cur: seq<byte>, dst: nat, src: nat, hi: nat, len: nat)
    requires dst + len == hi <= |before| && src + len <= |before| && Moving(before, cur, dst, src, dst, hi)
    ensures Copied(before, cur, dst, src, len)
  {
    var r := before[..dst] + before[src..src + len] + before[dst + len..];
    forall k | 0 <= k < |cur|
      ensures cur[k] == r[k]
    {
      assert ByteMoved(before, cur, dst, src, dst, hi, k);
    }
  }

  /** Copying upward from the front, or downward from the back, never overwrites
      a byte that is still to be copied. */
  lemma MoveStep(before: seq<byte>, was: seq<byte>, cur: seq<byte>, dst: nat, src: nat, i: nat, lo: nat, hi: nat,
                 lo': nat, hi': nat)
    requires Moving(before, was, dst, src, lo, hi) && dst + i < |was| && src + i < |was|
    requires cur == was[dst + i := was[src + i]]
    requires (dst <= src && hi == dst + i && lo' == lo && hi' == hi + 1)
             || (src < dst && lo == dst + i + 1 && lo' == dst + i && hi' == hi)
    requires lo' < hi'
    ensures Moving(before, cur, dst, src, lo', hi')
  {
    assert ByteMoved(before, was, dst, src, lo, hi, src + i);
    forall k: nat
      ensures ByteMoved(before, cur, dst, src, lo', hi', k)
    {
      assert ByteMoved(before, was, dst, src, lo, hi, k);
    }
  }

  method MoveDown(a: array<byte>, dst: nat, src: nat, len: nat)
    requires dst <= src && src + len <= a.Length
    modifies a
    ensures Copied(old(a[..]), a[..], dst, src, len)
  {
    ghost var before := a[..];
    for i := 0 to len
      invariant Moving(before, a[..], dst, src, dst, dst + i)
    {
      ghost var was := a[..];
      a[dst + i] := a[src + i];
      MoveStep(before, was, a[..], dst, src, i, dst, dst + i, dst, dst + i + 1);
    }
    AllMoved(before, a[..], dst, src, dst + len, len);
  }

  method MoveUp(a: array<byte>, dst: nat, src: nat, len: nat)
    requires src < dst && dst + len <= a.Length
    modifies a
    ensures Copied(old(a[..]), a[..], dst, src, len)
  {
    ghost var before := a[..];
    var i := len;
    while i > 0
      invariant 0 <= i <= len
      invariant Moving(before, a[..], dst, src, dst + i, dst + len)
    {
      i := i - 1;
      ghost var was := a[..];
      a[dst + i] := a[src + i];
      MoveStep(before, was, a[..], dst, src, i, dst + i + 1, dst + len, dst + i, dst + len);
    }
    AllMoved(before, a[..], dst, src, dst + len, len);
  }

  /** Copies bytes from outside into a page. */
  method CopyIn(a: array<byte>, dst: nat, item: seq<byte>)
    requires dst + |item| <= a.Length
    modifies a
    ensures a[..] == old(a[..dst]) + item + old(a[dst + |item|..])
  {
    for i := 0 to |item|
      invariant a[..dst] == old(a[..dst])
      invariant a[dst..dst + i] == item[..i]
      invariant a[dst + |item|..] == old(a[dst + |item|..])
    {
      a[dst + i] := item[i];
      assert a[dst..dst + i + 1] == a[dst..dst + i] + [item[i]];
    }
    assert item[..|item|] == item;
    assert a[..] == a[..dst] + a[dst..dst + |item|] + a[dst + |item|..];
  }

  lemma ShuffledIn(lines: seq<ItemId>, full: seq<ItemId>, k: nat, l: ItemId)
    requires k <= |lines| && |full| == |lines| + 1 && full[..|lines|] == lines
    ensures Parting(full, k)[k := l] == Inserted(lines, k, l)
  {
    assert full[..k] == lines[..k] && full[k..|lines|] == lines[k..];
  }

  /** An item to be placed anywhere, whose nonzero aligned size fits the free
      space, is always accepted. */
  method AddFitting(page: SlottedPage, item: seq<byte>, flags: nat) returns (fits: bool, offsetNum: nat)
    requires page.Valid() && flags < 4 && |item| > 0
    modifies page`pdLower, page`pdUpper, page.bytes, page.linp
    ensures page.Valid() && (fits ==> offsetNum != INVALID_OFFSET_NUMBER)
    ensures fits <==> old(page.pdLower) + SIZEOF_ITEMID + AlignUp(|item|, MAX_ALIGNMENT) <= old(page.pdUpper)
    ensures !fits ==>
              (offsetNum != INVALID_OFFSET_NUMBER
               <==> && old(page.pdLower) + AlignUp(|item|, MAX_ALIGNMENT) <= old(page.pdUpper)
                    && exists i :: 0 <= i < |old(page.Lines())| && old(page.Lines())[i].Recyclable())
  {
    var space := page.GetFreeSpace();
    var n := AlignUp(|item|, MAX_ALIGNMENT);
    fits := n <= space;
    offsetNum := page.AddItemAnywhere(item, flags);
  }
}
