/** The vector of relation descriptors: a growing array whose unused entries
    form a list, freed entries first and never-used entries behind them. */
module FdVector {
  import opened Lists

  datatype Entry = Entry(free: bool, next: int)

  /** Item `i` of a list, or the end marker. */
  function ItemOrEnd(s: seq<nat>, i: int): int {
    if 0 <= i < |s| then s[i] else -1
  }

  ghost predicate LinkAt(vec: seq<Entry>, list: seq<nat>, i: nat)
    requires i < |list|
  {
    list[i] < |vec| && vec[list[i]].next == ItemOrEnd(list, i + 1)
  }

  /** An entry is marked free exactly if it was freed or never used. */
  ghost predicate MarkAt(vec: seq<Entry>, freed: seq<nat>, cur: nat, a: nat) {
    a < |vec| ==> (vec[a].free <==> a in freed || a >= cur)
  }

  /** The free list is a stack of freed entries below `cur`, then `cur` and all
      entries above it in order. */
  ghost predicate VecOk(vec: seq<Entry>, head: int, cur: nat, freed: seq<nat>) {
    && cur <= |vec|
    && var list := freed + Upward(cur, |vec|);
    && head == ItemOrEnd(list, 0)
    && (forall i :: 0 <= i < |list| ==> LinkAt(vec, list, i))
    && (forall i :: 0 <= i < |freed| ==> freed[i] < cur)
    && (forall i, j :: 0 <= i < j < |freed| ==> freed[i] != freed[j])
    && (forall a :: MarkAt(vec, freed, cur, a))
  }

  ghost function UsedOf(vec: seq<Entry>): set<nat> {
    set a: nat | a < |vec| && !vec[a].free
  }

  lemma TakeFreed(vec: seq<Entry>, head: int, cur: nat, freed: seq<nat>)
    requires VecOk(vec, head, cur, freed) && freed != []
    ensures 0 <= head < cur && vec[head].free
    ensures VecOk(vec[head := vec[head].(free := false)], vec[head].next, cur, freed[1..])
  {
    var list := freed + Upward(cur, |vec|);
    assert LinkAt(vec, list, 0) && list[0] == freed[0];
    assert MarkAt(vec, freed, cur, freed[0]);
    var vec', freed' := vec[head := vec[head].(free := false)], freed[1..];
    var list' := freed' + Upward(cur, |vec'|);
    assert list' == list[1..];
    forall i | 0 <= i < |list'|
      ensures LinkAt(vec', list', i)
    {
      assert LinkAt(vec, list, i + 1);
    }
    forall a
      ensures MarkAt(vec', freed', cur, a)
    {
      assert MarkAt(vec, freed, cur, a);
      assert freed == [freed[0]] + freed';
    }
  }

  lemma TakeNew(vec: seq<Entry>, head: int, cur: nat)
    requires VecOk(vec, head, cur, []) && head >= 0
    ensures head == cur < |vec| && vec[cur].free
    ensures VecOk(vec[cur := vec[cur].(free := false)], vec[cur].next, cur + 1, [])
  {
    var none: seq<nat> := [];
    var list := none + Upward(cur, |vec|);
    assert LinkAt(vec, list, 0) && MarkAt(vec, none, cur, cur);
    var vec' := vec[cur := vec[cur].(free := false)];
    var next := cur + 1;
    var list' := none + Upward(next, |vec'|);
    assert list' == list[1..];
    forall i | 0 <= i < |list'|
      ensures LinkAt(vec', list', i)
    {
      assert LinkAt(vec, list, i + 1);
    }
    forall a
      ensures MarkAt(vec', none, next, a)
    {
      assert MarkAt(vec, none, cur, a);
    }
  }

  /** The head of the list is taken, from the stack or from behind all used entries. */
  lemma TakeHead(vec: seq<Entry>, head: int, cur: nat, freed: seq<nat>) returns (freed': seq<nat>)
    requires VecOk(vec, head, cur, freed) && head >= 0
    ensures head < |vec| && vec[head].free && freed' == if freed != [] then freed[1..] else []
    ensures if freed != [] then head == freed[0] && head < cur else head == cur
    ensures VecOk(vec[head := vec[head].(free := false)], vec[head].next, if head >= cur then cur + 1 else cur, freed')
    ensures UsedOf(vec[head := vec[head].(free := false)]) == UsedOf(vec) + {head}
  {
    if freed != [] {
      assert LinkAt(vec, freed + Upward(cur, |vec|), 0);
      TakeFreed(vec, head, cur, freed);
      freed' := freed[1..];
    } else {
      TakeNew(vec, head, cur);
      freed' := [];
    }
  }

  /** The list is empty only when every entry has been used. */
  lemma NoneLeft(vec: seq<Entry>, head: int, cur: nat, freed: seq<nat>)
    requires VecOk(vec, head, cur, freed)
    ensures head < 0 <==> freed == [] && cur == |vec|
    ensures head < 0 ==> head == -1
  {
    var list := freed + Upward(cur, |vec|);
    assert list == [] <==> freed == [] && cur == |vec|;
    assert list != [] ==> LinkAt(vec, list, 0);
  }

  lemma GiveBack(vec: seq<Entry>, head: int, cur: nat, freed: seq<nat>, fd: nat)
    requires VecOk(vec, head, cur, freed) && fd < |vec| && !vec[fd].free
    ensures fd < cur && VecOk(vec[fd := Entry(true, head)], fd, cur, [fd] + freed)
  {
    assert MarkAt(vec, freed, cur, fd);
    var list := freed + Upward(cur, |vec|);
    var vec', freed' := vec[fd := Entry(true, head)], [fd] + freed;
    var list' := freed' + Upward(cur, |vec'|);
    assert list' == [fd] + list;
    forall i | 0 <= i < |list'|
      ensures LinkAt(vec', list', i)
    {
      if i > 0 {
        assert LinkAt(vec, list, i - 1) && list'[i] == list[i - 1];
        assert i - 1 < |freed| ==> list[i - 1] in freed;
      }
    }
    forall a
      ensures MarkAt(vec', freed', cur, a)
    {
      assert MarkAt(vec, freed, cur, a);
    }
  }

  /** A vector whose entries from `cur` on are chained upward. */
  ghost predicate FreshAt(vec: seq<Entry>, cur: nat, a: nat) {
    cur <= a < |vec| ==> vec[a] == Entry(true, if a + 1 < |vec| then a + 1 else -1)
  }

  lemma FreshVec(vec: seq<Entry>, cur: nat)
    requires cur <= |vec| && (forall a :: FreshAt(vec, cur, a)) && forall a :: 0 <= a < cur ==> !vec[a].free
    ensures VecOk(vec, if cur < |vec| then cur else -1, cur, [])
  {
    var none: seq<nat> := [];
    var list := none + Upward(cur, |vec|);
    forall i | 0 <= i < |list|
      ensures LinkAt(vec, list, i)
    {
      assert FreshAt(vec, cur, cur + i);
    }
    forall a
      ensures MarkAt(vec, none, cur, a)
    {
      assert FreshAt(vec, cur, a);
    }
  }

  /** Extends the vector to `n` entries, the new ones chained upward. */
  method ChainUp(vec: seq<Entry>, n: nat) returns (r: seq<Entry>)
    requires |vec| < n
    ensures |r| == n && r[..|vec|] == vec && forall a :: FreshAt(r, |vec|, a)
  {
    r := vec;
    for i := |vec| to n
      invariant |r| == i && r[..|vec|] == vec
      invariant forall a :: |vec| <= a < i ==> r[a] == Entry(true, a + 1)
    {
      r := r + [Entry(true, i + 1)];
    }
    r := r[n - 1 := Entry(true, -1)];
  }

  /** A full vector, extended, has the same entries in use and a free list again. */
  lemma GrownVec(vec: seq<Entry>, head: int, cur: nat, freed: seq<nat>, grown: seq<Entry>)
    requires VecOk(vec, head, cur, freed) && freed == [] && cur == |vec| && |vec| + 1 < |grown|
    requires grown[..|vec|] == vec && forall a :: FreshAt(grown, |vec|, a)
    ensures VecOk(grown, cur, cur, []) && UsedOf(grown) == UsedOf(vec) && grown[cur] == Entry(true, cur + 1)
    ensures forall a :: 0 <= a < |vec| ==> grown[a] == vec[a]
  {
    forall a: nat | a < |vec|
      ensures grown[a] == vec[a] && !grown[a].free
    {
      assert MarkAt(vec, freed, cur, a) && grown[a] == grown[..|vec|][a];
    }
    FreshVec(grown, cur);
    assert FreshAt(grown, cur, cur);
    forall a: nat | cur <= a < |grown|
      ensures grown[a].free
    {
      assert FreshAt(grown, cur, a);
    }
  }

  class Descriptors {
    var vec: seq<Entry>
    var MdFree: int
    var CurFd: nat
    ghost var freed: seq<nat>

    ghost predicate Valid()
      reads this
    {
      |vec| >= 2 && VecOk(vec, MdFree, CurFd, freed)
    }

    ghost function Used(): set<nat>
      reads this
    {
      UsedOf(vec)
    }

    /** md_init. */
    constructor (n: nat)
      requires n >= 2
      ensures Valid() && Used() == {} && CurFd == 0 && |vec| == n
    {
      var v := ChainUp([], n);
      vec, MdFree, CurFd, freed := v, 0, 0, [];
      FreshVec(v, 0);
      new;
      forall a: nat | a < |vec|
        ensures vec[a].free
      {
        assert MarkAt(vec, [], 0, a);
      }
    }

    /** fdvec_alloc: an unused entry; the array doubles when none is left. */
    method Alloc() returns (fd: nat)
      requires Valid()
      modifies this
      ensures Valid() && fd < |vec| && fd !in old(Used()) && Used() == old(Used()) + {fd}
      ensures |vec| == if old(MdFree) < 0 then 2 * |old(vec)| else |old(vec)|
      ensures forall a :: 0 <= a < |old(vec)| && a != fd ==> vec[a] == old(vec)[a]
      ensures old(freed) != [] ==> fd == old(freed)[0] && freed == old(freed)[1..] && CurFd == old(CurFd)
      ensures old(freed) == [] ==> fd == old(CurFd) && CurFd == old(CurFd) + 1 && freed == []
    {
      NoneLeft(vec, MdFree, CurFd, freed);
      if MdFree >= 0 {
        freed := TakeHead(vec, MdFree, CurFd, freed);
        fd := MdFree;
        MdFree := vec[fd].next;
        vec := vec[fd := vec[fd].(free := false)];
        if fd >= CurFd {
          CurFd := CurFd + 1;
        }
        return;
      }
      fd := GrowAndTake();
    }

    /** Doubles the full array and takes the first new entry. */
    method GrowAndTake() returns (fd: nat)
      requires Valid() && MdFree < 0
      modifies this
      ensures Valid() && fd == old(CurFd) == |old(vec)| && |vec| == 2 * |old(vec)| && Used() == old(Used()) + {fd}
      ensures forall a :: 0 <= a < |old(vec)| ==> vec[a] == old(vec)[a]
      ensures CurFd == old(CurFd) + 1 && freed == old(freed) == []
    {
      NoneLeft(vec, MdFree, CurFd, freed);
      var grown := ChainUp(vec, 2 * |vec|);
      GrownVec(vec, MdFree, CurFd, freed, grown);
      TakeNew(grown, CurFd, CurFd);
      fd := CurFd;
      vec := grown[fd := grown[fd].(free := false)];
      MdFree, CurFd := fd + 1, CurFd + 1;
    }

    /** fdvec_free: the entry goes on top of the stack. */
    method Release(fd: nat)
      requires Valid() && fd in Used()
      modifies this
      ensures Valid() && Used() == old(Used()) - {fd} && |vec| == |old(vec)| && CurFd == old(CurFd)
      ensures freed == [fd] + old(freed)
    {
      GiveBack(vec, MdFree, CurFd, freed, fd);
      vec, MdFree, freed := vec[fd := Entry(true, MdFree)], fd, [fd] + freed;
    }

    /** md_commit: syncs relations in the order of their entries until one fails. */
    method Commit(sync: nat -> bool) returns (ok: bool, visited: seq<nat>)
      requires Valid()
      ensures ok ==> (forall a :: a in visited <==> a in Used()) && forall a :: a in Used() ==> sync(a)
      ensures !ok ==> exists a :: a in Used() && !sync(a) && forall b :: b in visited <==> b in Used() && b < a
      ensures forall a :: a in visited ==> sync(a)
      ensures forall i, j :: 0 <= i < j < |visited| ==> visited[i] < visited[j]
    {
      visited := [];
      for i := 0 to CurFd
        invariant forall a :: a in visited <==> a in Used() && a < i
        invariant forall a :: a in visited ==> sync(a)
        invariant forall j :: 0 <= j < |visited| ==> visited[j] < i
        invariant forall k, j :: 0 <= k < j < |visited| ==> visited[k] < visited[j]
      {
        if !vec[i].free {
          assert i in Used();
          if !sync(i) {
            return false, visited;
          }
          visited := visited + [i];
        }
      }
      ok := true;
      forall a | a in Used()
        ensures a < CurFd
      {
        assert MarkAt(vec, freed, CurFd, a);
      }
    }
  }
}
