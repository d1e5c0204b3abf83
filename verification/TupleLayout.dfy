/** The layout of heap tuples: attribute images, alignment, null bitmaps, and
    the reference reading of a tuple by a walk over all its attributes. */
module TupleLayout {
  import opened Bits
  import opened Storage

  /** A column descriptor. `attlen` is -1 for variable-length attributes. */
  datatype Attr = Attr(attlen: int, attalign: char, attbyval: bool)

  /** A value: carried in the Datum itself, or pointed to by it. */
  datatype Datum = ByVal(v: nat) | ByRef(bytes: seq<byte>)

  datatype Option<+T> = None | Some(value: T)

  /** The parts of a heap tuple that readers look at: the null and varlena bits
      of the info mask, the bitmap, and the data area behind the header. */
  datatype Tuple = Tuple(natts: nat, hoff: nat, hasNull: bool, hasVarlena: bool,
                         hasExternal: bool, hasCompressed: bool, bits: seq<bv8>, data: seq<byte>)

  /** Lengths the catalog uses, of which only four can be passed by value. */
  predicate AttrOk(a: Attr) {
    (a.attlen == -1 || a.attlen > 0) && (a.attbyval ==> a.attlen in {1, 2, 4, 8})
  }

  /** `ATT_ALIGN`: any alignment code that is not 'i', 'c' or 'd' means short. */
  function AlignOf(c: char): (r: nat)
    ensures r in {1, 2, 4, 8}
  {
    if c == 'i' then 4 else if c == 'c' then 1 else if c == 'd' then 8 else 2
  }

  function Aligned(off: nat, a: Attr): (r: nat)
    ensures off <= r < off + 8
  {
    AlignUp(off, AlignOf(a.attalign))
  }

  /** An offset at which an attribute with alignment code `c` may lie. */
  predicate OnBoundary(c: char, off: nat) {
    match c
    case 'c' => true
    case 'i' => off % 4 == 0
    case 'd' => off % 8 == 0
    case _ => off % 2 == 0
  }

  /** Aligning moves to the first such offset, and not at all if already there. */
  lemma AlignedFirst(off: nat, a: Attr, x: nat)
    ensures OnBoundary(a.attalign, Aligned(off, a))
    ensures OnBoundary(a.attalign, x) && off <= x ==> Aligned(off, a) <= x
  {
    if OnBoundary(a.attalign, x) && off <= x {
      AlignUpLeast(off, AlignOf(a.attalign), x);
    }
  }

  // ---------- attribute images ----------

  /** Little-endian bytes of a number, truncated to `n` bytes. */
  function LE(v: nat, n: nat): (s: seq<byte>)
    ensures |s| == n
  {
    if n == 0 then [] else [v % 256] + LE(v / 256, n - 1)
  }

  function FromLE(s: seq<byte>): nat {
    if s == [] then 0 else s[0] + 256 * FromLE(s[1..])
  }

  function Pow256(n: nat): (p: nat)
    ensures p > 0
  {
    if n == 0 then 1 else 256 * Pow256(n - 1)
  }

  /** Storing and fetching a by-value attribute masks it to its length. */
  lemma {:induction false} FromLEofLE(v: nat, n: nat)
    ensures FromLE(LE(v, n)) == v % Pow256(n)
  {
    if n > 0 {
      FromLEofLE(v / 256, n - 1);
      assert LE(v, n)[1..] == LE(v / 256, n - 1);
      LowByte(v, Pow256(n - 1));
    }
  }

  lemma LowByte(v: nat, p: nat)
    requires p > 0
    ensures v % (256 * p) == v % 256 + 256 * ((v / 256) % p)
  {
    DivModFacts(v / 256, p);
    var q, r := v / 256 / p, (v / 256) % p;
    assert v == 256 * (q * p + r) + v % 256;
    assert 256 * (q * p) == q * (256 * p);
    DivModUnique(v, 256 * p, q, 256 * r + v % 256);
  }

  /** `VARATT_SIZE`: the low 30 bits of the 4-byte header. */
  function VarSize(header: seq<byte>): nat
    requires |header| >= 4
  {
    header[0] as int + 256 * (header[1] as int) + 65536 * (header[2] as int) + 16777216 * (header[3] as int % 64)
  }

  /** The flag bits of the header of a varlena. */
  predicate IsExternal(header: seq<byte>)
    requires |header| >= 4
  {
    header[3] >= 128
  }

  predicate IsCompressed(header: seq<byte>)
    requires |header| >= 4
  {
    header[3] as int / 64 % 2 == 1
  }

  /** Length and flags are the low 30 bits and the two high bits of one number
      of 32 bits. */
  lemma HeaderWord(header: seq<byte>)
    requires |header| == 4
    ensures var w := FromLE(header);
            && w == VarSize(header) + (if IsCompressed(header) then 0x4000_0000 else 0)
                    + (if IsExternal(header) then 0x8000_0000 else 0)
            && VarSize(header) < 0x4000_0000
  {
    assert header[1..][1..] == header[2..] && header[2..][1..] == header[3..] && header[3..][1..] == [];
    assert FromLE(header[3..]) == header[3];
    assert FromLE(header) == FromLE(header[..]) == header[0] as int + 256 * FromLE(header[1..]);
    assert FromLE(header[1..]) == header[1] as int + 256 * FromLE(header[2..]);
    assert FromLE(header[2..]) == header[2] as int + 256 * header[3] as int;
  }

  /** A value that an attribute can hold. */
  predicate Holds(a: Attr, d: Datum) {
    if a.attbyval then d.ByVal?
    else if a.attlen == -1 then d.ByRef? && |d.bytes| >= 4 && VarSize(d.bytes) == |d.bytes|
    else d.ByRef? && |d.bytes| == a.attlen
  }

  /** The bytes stored for a value. */
  function Image(a: Attr, d: Datum): (s: seq<byte>)
    requires AttrOk(a) && Holds(a, d)
    ensures |s| > 0 && (a.attlen != -1 ==> |s| == a.attlen)
  {
    if a.attbyval then LE(d.v, a.attlen) else d.bytes
  }

  /** What a reader gets back: by-value data masked to the attribute length. */
  function Masked(a: Attr, d: Datum): Datum
    requires AttrOk(a) && Holds(a, d)
  {
    if a.attbyval then ByVal(d.v % Pow256(a.attlen)) else d
  }

  /** `ATT_ADD_LENGTH`: how many bytes the attribute at `off` takes. */
  function LenAt(a: Attr, data: seq<byte>, off: nat): (n: nat)
    requires AttrOk(a)
    ensures a.attlen != -1 ==> n == a.attlen
  {
    if a.attlen != -1 then a.attlen
    else if off + 4 <= |data| then VarSize(data[off..off + 4]) else 0
  }

  /** `FETCH_ATT`. */
  function Fetch(a: Attr, data: seq<byte>, off: nat): Datum
    requires AttrOk(a) && off + LenAt(a, data, off) <= |data|
  {
    var bytes := data[off..off + LenAt(a, data, off)];
    if a.attbyval then ByVal(FromLE(bytes)) else ByRef(bytes)
  }

  /** An image placed in a buffer reads back as the masked value. */
  lemma FetchImage(a: Attr, d: Datum, data: seq<byte>, off: nat)
    requires AttrOk(a) && Holds(a, d) && off + |Image(a, d)| <= |data|
    requires data[off..off + |Image(a, d)|] == Image(a, d)
    ensures LenAt(a, data, off) == |Image(a, d)| && Fetch(a, data, off) == Masked(a, d)
  {
    if a.attbyval {
      FromLEofLE(d.v, a.attlen);
    } else if a.attlen == -1 {
      assert data[off..off + 4] == d.bytes[..4];
    }
  }

  lemma {:induction false} FromLEBound(s: seq<byte>)
    ensures FromLE(s) < Pow256(|s|)
  {
    if s != [] {
      FromLEBound(s[1..]);
    }
  }

  /** A fetched value is one that its attribute can hold, already masked. */
  lemma FetchHolds(a: Attr, data: seq<byte>, off: nat)
    requires AttrOk(a) && off + LenAt(a, data, off) <= |data| && (a.attlen == -1 ==> LenAt(a, data, off) >= 4)
    ensures Holds(a, Fetch(a, data, off)) && Masked(a, Fetch(a, data, off)) == Fetch(a, data, off)
  {
    var n := LenAt(a, data, off);
    var bytes := data[off..off + n];
    if a.attbyval {
      FromLEBound(bytes);
      DivModUnique(FromLE(bytes), Pow256(a.attlen), 0, FromLE(bytes));
    } else if a.attlen == -1 {
      assert data[off..off + 4] == bytes[..4];
    }
  }

  // ---------- the null bitmap ----------

  /** `1 << k` in a byte. */
  function Bit(k: nat): bv8 {
    match k
    case 0 => 1
    case 1 => 2
    case 2 => 4
    case 3 => 8
    case 4 => 16
    case 5 => 32
    case 6 => 64
    case _ => 128
  }

  /** `ATT_IS_NULL`: the bit of a null attribute is clear. */
  predicate BitClear(bits: seq<bv8>, i: nat)
    requires i / 8 < |bits|
  {
    bits[i / 8] & Bit(i % 8) == 0
  }

  lemma SetBit(b: bv8, k: nat, j: nat)
    requires k < 8 && j < 8
    ensures (b | Bit(k)) & Bit(j) == if j == k then Bit(k) else b & Bit(j)
    ensures Bit(k) != 0
  {
    assert j == k || Bit(k) & Bit(j) == 0;
  }

  /** `(1 << f) - 1`. */
  function Below(f: nat): bv8 {
    Bit(f) - 1
  }

  /** Some attribute below `f` has a clear bit, tested in one operation. */
  lemma ClearBelow(b: bv8, f: nat)
    requires f < 8
    ensures !b & Below(f) != 0 <==> exists j :: 0 <= j < f && b & Bit(j) == 0
  {
    ClearBelowCases(b);
    assert Bit(0) == 1 && Bit(1) == 2 && Bit(2) == 4 && Bit(3) == 8 && Bit(4) == 16 && Bit(5) == 32 && Bit(6) == 64;
    assert f == 0 || f == 1 || f == 2 || f == 3 || f == 4 || f == 5 || f == 6 || f == 7;
    if !b & Below(f) == 0 {
      forall j | 0 <= j < f
        ensures b & Bit(j) != 0
      {
        assert j == 0 || j == 1 || j == 2 || j == 3 || j == 4 || j == 5 || j == 6;
      }
    }
  }

  lemma ClearBelowCases(b: bv8)
    ensures !b & 1 != 0 <==> b & 1 == 0
    ensures !b & 3 != 0 <==> b & 1 == 0 || b & 2 == 0
    ensures !b & 7 != 0 <==> b & 1 == 0 || b & 2 == 0 || b & 4 == 0
    ensures !b & 15 != 0 <==> b & 1 == 0 || b & 2 == 0 || b & 4 == 0 || b & 8 == 0
    ensures !b & 31 != 0 <==> b & 1 == 0 || b & 2 == 0 || b & 4 == 0 || b & 8 == 0 || b & 16 == 0
    ensures !b & 63 != 0 <==> b & 1 == 0 || b & 2 == 0 || b & 4 == 0 || b & 8 == 0 || b & 16 == 0 || b & 32 == 0
    ensures !b & 127 != 0 <==> b & 1 == 0 || b & 2 == 0 || b & 4 == 0 || b & 8 == 0 || b & 16 == 0
                               || b & 32 == 0 || b & 64 == 0
  {
  }

  /** A byte differs from 0xFF exactly when one of its eight bits is clear. */
  lemma ClearInByte(b: bv8)
    ensures b != 255 <==> exists j :: 0 <= j < 8 && b & Bit(j) == 0
  {
    assert b != 255 <==> b & 1 == 0 || b & 2 == 0 || b & 4 == 0 || b & 8 == 0 || b & 16 == 0
                         || b & 32 == 0 || b & 64 == 0 || b & 128 == 0;
    assert Bit(0) == 1 && Bit(1) == 2 && Bit(2) == 4 && Bit(3) == 8;
    assert Bit(4) == 16 && Bit(5) == 32 && Bit(6) == 64 && Bit(7) == 128;
    if b == 255 {
      forall j | 0 <= j < 8
        ensures b & Bit(j) != 0
      {
        assert j == 0 || j == 1 || j == 2 || j == 3 || j == 4 || j == 5 || j == 6 || j == 7;
      }
    }
  }

  const MAX_HEAP_ATTRIBUTE_NUMBER: nat := 1600
  const OFFSET_OF_T_BITS: nat := 31

  /** `BIT_MAP_LEN`: whole groups of four bytes. */
  function BitMapLen(natts: nat): nat
    requires natts > 0
  {
    (natts - 1) / 8 - (natts - 1) / 8 % 4 + 4
  }

  function HeaderOffset(natts: nat, hasNull: bool): nat
    requires hasNull ==> natts > 0
  {
    AlignUp(OFFSET_OF_T_BITS + if hasNull then BitMapLen(natts) else 0, MAX_ALIGNMENT)
  }

  /** The bitmap has a bit for every attribute, and the header with it still
      fits the 8-bit offset field for as many attributes as are allowed. */
  lemma HeaderFits(natts: nat, hasNull: bool)
    requires natts <= MAX_HEAP_ATTRIBUTE_NUMBER && (hasNull ==> natts > 0)
    ensures hasNull ==> BitMapLen(natts) % 4 == 0 && 8 * (BitMapLen(natts) - 4) < natts <= 8 * BitMapLen(natts)
    ensures hasNull ==> OFFSET_OF_T_BITS + BitMapLen(natts) <= HeaderOffset(natts, hasNull)
    ensures HeaderOffset(natts, hasNull) < 256
  {
    AlignUpLeast(OFFSET_OF_T_BITS + if hasNull then BitMapLen(natts) else 0, MAX_ALIGNMENT, 240);
  }

  // ---------- the layout of given values ----------

  /** Where the data of the first `i` attributes ends. */
  function End(attrs: seq<Attr>, vals: seq<Datum>, nulls: seq<bool>, i: nat): nat
    requires i <= |attrs| == |vals| == |nulls|
    requires forall j :: 0 <= j < |attrs| ==> AttrOk(attrs[j])
    requires forall j :: 0 <= j < |attrs| && !nulls[j] ==> Holds(attrs[j], vals[j])
  {
    if i == 0 then 0
    else
      var e := End(attrs, vals, nulls, i - 1);
      if nulls[i - 1] then e else Aligned(e, attrs[i - 1]) + |Image(attrs[i - 1], vals[i - 1])|
  }

  /** The data area of the first `i` attributes: each image behind the one
      before, and what was there in between. */
  ghost function Laid(attrs: seq<Attr>, vals: seq<Datum>, nulls: seq<bool>, was: seq<byte>, i: nat): (data: seq<byte>)
    requires i <= |attrs| == |vals| == |nulls|
    requires forall j :: 0 <= j < |attrs| ==> AttrOk(attrs[j])
    requires forall j :: 0 <= j < |attrs| && !nulls[j] ==> Holds(attrs[j], vals[j])
    requires End(attrs, vals, nulls, i) <= |was|
    ensures |data| == End(attrs, vals, nulls, i)
  {
    if i == 0 then []
    else
      var before := Laid(attrs, vals, nulls, was, i - 1);
      if nulls[i - 1] then before
      else before + was[|before|..Aligned(|before|, attrs[i - 1])] + Image(attrs[i - 1], vals[i - 1])
  }

  // ---------- the reference reading of a tuple ----------

  predicate IsNull(t: Tuple, i: nat)
    requires t.hasNull ==> i / 8 < |t.bits|
  {
    t.hasNull && BitClear(t.bits, i)
  }

  /** The bitmap covers the attributes present, and descriptor and tuple match. */
  predicate Shaped(attrs: seq<Attr>, t: Tuple) {
    && t.natts <= |attrs|
    && (t.hasNull ==> t.natts <= 8 * |t.bits|)
    && forall j :: 0 <= j < |attrs| ==> AttrOk(attrs[j])
  }

  /** The careful walk: where the first `i` attributes end, skipping nulls. */
  function WalkEnd(attrs: seq<Attr>, t: Tuple, i: nat): nat
    requires Shaped(attrs, t) && i <= t.natts
  {
    if i == 0 then 0
    else
      var e := WalkEnd(attrs, t, i - 1);
      if IsNull(t, i - 1) then e
      else
        var s := Aligned(e, attrs[i - 1]);
        s + LenAt(attrs[i - 1], t.data, s)
  }

  function WalkStart(attrs: seq<Attr>, t: Tuple, i: nat): nat
    requires Shaped(attrs, t) && i < t.natts
  {
    Aligned(WalkEnd(attrs, t, i), attrs[i])
  }

  /** Attribute `i` is null, or lies within the data area; and it is not of
      variable length if the tuple says that it has no such attributes. */
  predicate AttrPresent(attrs: seq<Attr>, t: Tuple, i: nat)
    requires Shaped(attrs, t) && i < t.natts
  {
    IsNull(t, i) ||
    var s := WalkStart(attrs, t, i);
    && s + LenAt(attrs[i], t.data, s) <= |t.data|
    && (attrs[i].attlen == -1 ==> t.hasVarlena && LenAt(attrs[i], t.data, s) >= 4)
  }

  ghost predicate TupleOk(attrs: seq<Attr>, t: Tuple) {
    Shaped(attrs, t) && forall i :: 0 <= i < t.natts ==> AttrPresent(attrs, t, i)
  }

  /** What reading attribute `i` (from 0) of a tuple means. */
  ghost function Read(attrs: seq<Attr>, t: Tuple, i: nat): Option<Datum>
    requires TupleOk(attrs, t)
  {
    if i >= t.natts || IsNull(t, i) then None
    else
      assert AttrPresent(attrs, t, i);
      Some(Fetch(attrs[i], t.data, WalkStart(attrs, t, i)))
  }

  // ---------- offsets that depend on the descriptor alone ----------

  /** All attributes before `j` have a fixed length. */
  ghost predicate FixedPrefix(attrs: seq<Attr>, j: nat) {
    j <= |attrs| && forall i :: 0 <= i < j ==> attrs[i].attlen > 0
  }

  ghost function FixedEnd(attrs: seq<Attr>, j: nat): nat
    requires FixedPrefix(attrs, j)
  {
    if j == 0 then 0 else Aligned(FixedEnd(attrs, j - 1), attrs[j - 1]) + attrs[j - 1].attlen
  }

  ghost function FixedStart(attrs: seq<Attr>, j: nat): nat
    requires j < |attrs| && FixedPrefix(attrs, j)
  {
    Aligned(FixedEnd(attrs, j), attrs[j])
  }

  /** In a tuple without nulls before `j`, the walk arrives at the offset that
      the descriptor alone determines. */
  lemma {:induction false} WalkIsFixed(attrs: seq<Attr>, t: Tuple, j: nat)
    requires Shaped(attrs, t) && j <= t.natts && FixedPrefix(attrs, j)
    requires forall i :: 0 <= i < j ==> !IsNull(t, i)
    ensures WalkEnd(attrs, t, j) == FixedEnd(attrs, j)
  {
    if j > 0 {
      WalkIsFixed(attrs, t, j - 1);
      assert !IsNull(t, j - 1);
    }
  }

  // ---------- formed tuples ----------

  /** The bytes of attribute `i` are where the layout says. */
  ghost predicate StoredAt(attrs: seq<Attr>, vals: seq<Datum>, nulls: seq<bool>, data: seq<byte>, i: nat)
    requires i < |attrs| == |vals| == |nulls|
    requires forall j :: 0 <= j < |attrs| ==> AttrOk(attrs[j])
    requires forall j :: 0 <= j < |attrs| && !nulls[j] ==> Holds(attrs[j], vals[j])
  {
    !nulls[i] ==>
      var s := Aligned(End(attrs, vals, nulls, i), attrs[i]);
      var im := Image(attrs[i], vals[i]);
      s + |im| <= |data| && data[s..s + |im|] == im
  }

  /** Attribute `j` of the tuple is stored as the layout says, and null as given. */
  ghost predicate FormedAt(attrs: seq<Attr>, vals: seq<Datum>, nulls: seq<bool>, t: Tuple, j: nat)
    requires Shaped(attrs, t) && j < t.natts == |attrs| == |vals| == |nulls|
    requires forall k :: 0 <= k < |attrs| && !nulls[k] ==> Holds(attrs[k], vals[k])
  {
    StoredAt(attrs, vals, nulls, t.data, j) && IsNull(t, j) == nulls[j]
  }

  /** A formed tuple reads back as exactly the values and nulls it was made of. */
  lemma {:induction false} WalkFollowsLayout(attrs: seq<Attr>, vals: seq<Datum>, nulls: seq<bool>, t: Tuple, i: nat)
    requires Shaped(attrs, t) && i <= t.natts == |attrs| == |vals| == |nulls|
    requires forall j :: 0 <= j < |attrs| && !nulls[j] ==> Holds(attrs[j], vals[j])
    requires forall j :: 0 <= j < |attrs| ==> FormedAt(attrs, vals, nulls, t, j)
    ensures WalkEnd(attrs, t, i) == End(attrs, vals, nulls, i)
  {
    if i > 0 {
      WalkFollowsLayout(attrs, vals, nulls, t, i - 1);
      WalkStep(attrs, vals, nulls, t, i - 1);
    }
  }

  lemma WalkStep(attrs: seq<Attr>, vals: seq<Datum>, nulls: seq<bool>, t: Tuple, i: nat)
    requires Shaped(attrs, t) && i < t.natts == |attrs| == |vals| == |nulls|
    requires forall j :: 0 <= j < |attrs| && !nulls[j] ==> Holds(attrs[j], vals[j])
    requires forall j :: 0 <= j < |attrs| ==> FormedAt(attrs, vals, nulls, t, j)
    requires WalkEnd(attrs, t, i) == End(attrs, vals, nulls, i)
    ensures WalkEnd(attrs, t, i + 1) == End(attrs, vals, nulls, i + 1)
  {
    assert FormedAt(attrs, vals, nulls, t, i);
    if !nulls[i] {
      FetchImage(attrs[i], vals[i], t.data, Aligned(End(attrs, vals, nulls, i), attrs[i]));
    }
  }

  /** What a tuple formed of `vals` and `nulls` reads as. */
  ghost function Formed(attrs: seq<Attr>, vals: seq<Datum>, nulls: seq<bool>, i: nat): Option<Datum>
    requires i < |attrs| == |vals| == |nulls|
    requires AttrOk(attrs[i]) && (!nulls[i] ==> Holds(attrs[i], vals[i]))
  {
    if nulls[i] then None else Some(Masked(attrs[i], vals[i]))
  }

  lemma FormedRead(attrs: seq<Attr>, vals: seq<Datum>, nulls: seq<bool>, t: Tuple, j: nat)
    requires Shaped(attrs, t) && j < t.natts == |attrs| == |vals| == |nulls|
    requires forall j :: 0 <= j < |attrs| && !nulls[j] ==> Holds(attrs[j], vals[j])
    requires forall j :: 0 <= j < |attrs| ==> FormedAt(attrs, vals, nulls, t, j)
    requires !t.hasVarlena && !nulls[j] ==> attrs[j].attlen != -1
    ensures AttrPresent(attrs, t, j) && IsNull(t, j) == nulls[j]
    ensures !nulls[j] ==> Fetch(attrs[j], t.data, WalkStart(attrs, t, j)) == Masked(attrs[j], vals[j])
  {
    WalkFollowsLayout(attrs, vals, nulls, t, j);
    assert FormedAt(attrs, vals, nulls, t, j);
    if !nulls[j] {
      FetchImage(attrs[j], vals[j], t.data, WalkStart(attrs, t, j));
    }
  }

  lemma FormedReads(attrs: seq<Attr>, vals: seq<Datum>, nulls: seq<bool>, t: Tuple)
    requires Shaped(attrs, t) && t.natts == |attrs| == |vals| == |nulls|
    requires forall j :: 0 <= j < |attrs| && !nulls[j] ==> Holds(attrs[j], vals[j])
    requires forall j :: 0 <= j < |attrs| ==> FormedAt(attrs, vals, nulls, t, j)
    requires !t.hasVarlena ==> forall j :: 0 <= j < |attrs| && !nulls[j] ==> attrs[j].attlen != -1
    ensures TupleOk(attrs, t)
    ensures forall j :: 0 <= j < |attrs| ==> Read(attrs, t, j) == Formed(attrs, vals, nulls, j)
  {
    forall j | 0 <= j < |attrs|
      ensures AttrPresent(attrs, t, j)
    {
      FormedRead(attrs, vals, nulls, t, j);
    }
    forall j | 0 <= j < |attrs|
      ensures Read(attrs, t, j) == Formed(attrs, vals, nulls, j)
    {
      FormedRead(attrs, vals, nulls, t, j);
    }
  }
}
