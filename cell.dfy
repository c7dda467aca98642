/** A cell of the layered hexagonal grid (graph-ds/src/hexagon_graph/cell.rs): four i16 axial
    fields packed into a u64 id and back, the order on cells, and the neighbour arithmetic. */
module HexCells {
  import opened Wrappers

  type Byte = x: int | 0 <= x < 0x100
  type I16 = x: int | -0x8000 <= x < 0x8000
  type U64 = x: int | 0 <= x < 0x1_0000_0000_0000_0000

  // ---------------------------------------------------------------------------------------
  // Machine arithmetic

  /** The low 16 bits of x read as a two's-complement i16 (Rust's wrapping i16 arithmetic). */
  function Wrap16(x: int): I16 {
    (x + 0x8000) % 0x1_0000 - 0x8000
  }

  /** The unsigned 16-bit pattern of an i16. */
  function Bits16(x: I16): nat {
    x % 0x1_0000
  }

  lemma Wrap16Bits(x: I16)
    ensures Bits16(x) < 0x1_0000 && Wrap16(Bits16(x)) == x
  {
  }

  lemma BitsWrap16(v: int)
    requires 0 <= v < 0x1_0000
    ensures Bits16(Wrap16(v)) == v
  {
  }

  /** Wrapping addition only depends on the residue of its first operand. */
  lemma Wrap16Add(x: int, k: int)
    ensures Wrap16(Wrap16(x) + k) == Wrap16(x + k)
  {
    var q := (x + 0x8000) / 0x1_0000;
    assert x + 0x8000 == q * 0x1_0000 + (x + 0x8000) % 0x1_0000;
    assert Wrap16(x) + k + 0x8000 == (x + k + 0x8000) - q * 0x1_0000;
    ModuloShift(x + k + 0x8000, q);
  }

  lemma ModuloShift(v: int, q: int)
    ensures (v - q * 0x1_0000) % 0x1_0000 == v % 0x1_0000
  {
    var r := v % 0x1_0000;
    var d := v / 0x1_0000;
    assert v == d * 0x1_0000 + r;
    assert v - q * 0x1_0000 == (d - q) * 0x1_0000 + r;
  }

  /** Adding a small non-zero amount under wrapping never gives the operand back. */
  lemma Wrap16Moves(x: I16, k: int)
    requires 0 < k < 0x1_0000 || -0x1_0000 < k < 0
    ensures Wrap16(x + k) != x
  {
  }

  /** `k`, written as an unsigned number, as its `width` least significant bytes, low byte first. */
  function LeBytes(n: nat, width: nat): (bs: seq<Byte>)
    ensures |bs| == width
  {
    if width == 0 then [] else [n % 0x100] + LeBytes(n / 0x100, width - 1)
  }

  /** `x.to_le_bytes()` for an i16. */
  function I16LeBytes(x: I16): (bs: seq<Byte>)
    ensures |bs| == 2
  {
    LeBytes(Bits16(x), 2)
  }

  /** One step of `.fold(0, |acc, &x| (acc << 8) | x as u64)`: the shift drops the top byte. */
  function ShiftOr64(acc: U64, x: Byte): U64 {
    (acc % 0x100_0000_0000_0000) * 0x100 + x
  }

  /** One step of `.fold(0, |acc, &x| (acc << 8) | x as i16)` on i16 bit patterns. */
  function ShiftOr16(acc: I16, x: Byte): I16 {
    Wrap16((Bits16(acc) % 0x100) * 0x100 + x)
  }

  /** The u64 fold over a byte slice, first byte ending up most significant. */
  function FoldBytes64(bs: seq<Byte>): U64 {
    if bs == [] then 0 else ShiftOr64(FoldBytes64(bs[..|bs| - 1]), bs[|bs| - 1])
  }

  /** The i16 fold over a byte slice. */
  function FoldBytes16(bs: seq<Byte>): I16 {
    if bs == [] then 0 else ShiftOr16(FoldBytes16(bs[..|bs| - 1]), bs[|bs| - 1])
  }

  function Pow256(k: nat): nat {
    if k == 0 then 1 else 0x100 * Pow256(k - 1)
  }

  function Reverse<T>(s: seq<T>): (r: seq<T>)
    ensures |r| == |s|
  {
    if s == [] then [] else Reverse(s[1..]) + [s[0]]
  }

  lemma {:induction false} ReverseAt<T>(s: seq<T>, i: nat)
    requires i < |s|
    ensures Reverse(s)[i] == s[|s| - 1 - i]
  {
    if i < |s| - 1 {
      ReverseAt(s[1..], i);
    }
  }

  lemma {:induction false} Pow256Monotone(i: nat, j: nat)
    requires i <= j
    ensures Pow256(i) <= Pow256(j)
  {
    if i < j {
      Pow256Monotone(i, j - 1);
    }
  }

  lemma Pow256Values()
    ensures Pow256(7) == 0x100_0000_0000_0000
    ensures Pow256(8) == 0x1_0000_0000_0000_0000
  {
  }

  /** Over at most eight bytes the fold never shifts a byte out: it is plain base-256 place value. */
  lemma {:induction false} FoldBytes64Exact(bs: seq<Byte>)
    requires |bs| <= 8
    ensures FoldBytes64(bs) < Pow256(|bs|)
    ensures bs != [] ==> FoldBytes64(bs) == FoldBytes64(bs[..|bs| - 1]) * 0x100 + bs[|bs| - 1]
  {
    if bs != [] {
      var p := bs[..|bs| - 1];
      FoldBytes64Exact(p);
      Pow256Monotone(|p|, 7);
      Pow256Values();
    }
  }

  /** Reading the folded value back with `to_le_bytes` gives the bytes in reverse order. */
  lemma {:induction false} LeBytesOfFold(bs: seq<Byte>)
    requires |bs| <= 8
    ensures LeBytes(FoldBytes64(bs), |bs|) == Reverse(bs)
  {
    if bs != [] {
      var p, x := bs[..|bs| - 1], bs[|bs| - 1];
      FoldBytes64Exact(bs);
      LeBytesOfFold(p);
      var f := FoldBytes64(bs);
      DivModShift(FoldBytes64(p), x);
      assert LeBytes(f, |bs|) == [x] + LeBytes(FoldBytes64(p), |p|);
      ReverseSnoc(p, x);
      assert bs == p + [x];
    }
  }

  lemma DivModShift(a: nat, x: Byte)
    ensures (a * 0x100 + x) % 0x100 == x && (a * 0x100 + x) / 0x100 == a
  {
  }

  lemma ReverseSnoc<T>(p: seq<T>, x: T)
    ensures Reverse(p + [x]) == [x] + Reverse(p)
  {
    if p != [] {
      assert (p + [x])[1..] == p[1..] + [x];
      ReverseSnoc(p[1..], x);
    }
  }

  lemma ReverseLeBytes(n: nat, width: nat)
    requires width > 0
    ensures Reverse<Byte>(LeBytes(n, width)) == Reverse<Byte>(LeBytes(n / 0x100, width - 1)) + [(n % 0x100) as Byte]
  {
    var s := LeBytes(n, width);
    assert s[1..] == LeBytes(n / 0x100, width - 1) && s[0] == n % 0x100;
    assert s != [];
    assert Reverse(s) == Reverse(s[1..]) + [s[0]];
  }

  /** Folding the reversed little-endian bytes of a value rebuilds the value. */
  lemma {:induction false} FoldOfReversedLeBytes(n: nat, width: nat)
    requires width <= 8 && n < Pow256(width)
    ensures FoldBytes64(Reverse(LeBytes(n, width))) == n
  {
    if width > 0 {
      var q: nat, b: Byte := n / 0x100, n % 0x100;
      DivByteBelow(n, Pow256(width - 1));
      FoldOfReversedLeBytes(q, width - 1);
      ReverseLeBytes(n, width);
      var r: seq<Byte> := Reverse<Byte>(LeBytes(q, width - 1)) + [b];
      assert r[..|r| - 1] == Reverse(LeBytes(q, width - 1));
      assert FoldBytes64(r) == ShiftOr64(q, b);
      Pow256Monotone(width - 1, 7);
      Pow256Values();
      ShiftOrExact(n, q, b);
    }
  }

  lemma DivByteBelow(n: nat, p: nat)
    requires n < 0x100 * p
    ensures n / 0x100 < p
  {
  }

  /** Below 2^56 the shift drops nothing: shifting the quotient back and or-ing the remainder
      restores the value. */
  lemma ShiftOrExact(n: nat, q: nat, b: Byte)
    requires q == n / 0x100 && b == n % 0x100 && q < 0x100_0000_0000_0000
    ensures ShiftOr64(q, b) == n
  {
    assert q % 0x100_0000_0000_0000 == q;
  }

  /** The two-byte i16 fold reads its first byte as the high byte. */
  lemma FoldBytes16Pair(hi: Byte, lo: Byte)
    ensures FoldBytes16([hi, lo]) == Wrap16(hi as int * 0x100 + lo)
  {
    assert [hi, lo][..1] == [hi];
    assert [hi][..0] == [];
    assert Bits16(0) == 0;
    assert Wrap16(hi) == hi;
    assert FoldBytes16([hi]) == ShiftOr16(0, hi) == hi;
    assert Bits16(hi) == hi;
    assert Bits16(hi) % 0x100 == hi;
  }

  /** The bytes of a two-byte fold are the folded bytes, low byte first. */
  lemma I16LeBytesOfPair(hi: Byte, lo: Byte)
    ensures I16LeBytes(FoldBytes16([hi, lo])) == [lo, hi]
  {
    FoldBytes16Pair(hi, lo);
    BitsWrap16(hi as int * 0x100 + lo);
    LeBytesOfPair(hi, lo);
  }

  /** The two little-endian bytes of an i16 as (low, high). */
  lemma I16LeBytesParts(x: I16)
    ensures Wrap16(I16LeBytes(x)[1] as int * 0x100 + I16LeBytes(x)[0]) == x
  {
    var v := Bits16(x);
    Wrap16Bits(x);
    assert LeBytes(v / 0x100, 1) == [(v / 0x100) % 0x100] + LeBytes(v / 0x100 / 0x100, 0);
    assert I16LeBytes(x) == [v % 0x100] + LeBytes(v / 0x100, 1);
    assert I16LeBytes(x)[1] == (v / 0x100) % 0x100 == v / 0x100;
    assert (v / 0x100) * 0x100 + v % 0x100 == v;
  }

  lemma LeBytesOfPair(hi: Byte, lo: Byte)
    ensures LeBytes(hi as int * 0x100 + lo, 2) == [lo, hi]
  {
  }

  // ---------------------------------------------------------------------------------------
  // The cell and its id

  /** `HexCell { a, b, radius, layer }`: axial coordinates, hexagon size and layer. */
  datatype HexCell = HexCell(a: I16, b: I16, radius: I16, layer: I16)

  /** `HexCell::id`: the little-endian bytes of a, b, radius and layer, folded so that the
      first byte is the most significant. */
  function Id(c: HexCell): U64 {
    FoldBytes64(I16LeBytes(c.a) + I16LeBytes(c.b) + I16LeBytes(c.radius) + I16LeBytes(c.layer))
  }

  /** `HexCell::from_id`: each field folds two of the id's little-endian bytes. */
  function FromId(id: U64): HexCell {
    var le := LeBytes(id, 8);
    HexCell(FoldBytes16(le[6..]), FoldBytes16(le[4..6]), FoldBytes16(le[2..4]), FoldBytes16(le[0..2]))
  }

  /** Decoding an encoded cell gives the cell back. */
  lemma FromIdOfId(c: HexCell)
    ensures FromId(Id(c)) == c
  {
    var bs := I16LeBytes(c.a) + I16LeBytes(c.b) + I16LeBytes(c.radius) + I16LeBytes(c.layer);
    LeBytesOfFold(bs);
    var le := LeBytes(Id(c), 8);
    assert le == Reverse(bs);
    forall i | 0 <= i < 8 ensures le[i] == bs[7 - i] {
      ReverseAt(bs, i);
    }
    assert le[0..2] == [bs[7], bs[6]];
    assert le[2..4] == [bs[5], bs[4]];
    assert le[4..6] == [bs[3], bs[2]];
    assert le[6..] == [bs[1], bs[0]];
    FoldBytes16Pair(bs[7], bs[6]);
    FoldBytes16Pair(bs[5], bs[4]);
    FoldBytes16Pair(bs[3], bs[2]);
    FoldBytes16Pair(bs[1], bs[0]);
    I16LeBytesParts(c.a);
    I16LeBytesParts(c.b);
    I16LeBytesParts(c.radius);
    I16LeBytesParts(c.layer);
  }

  /** Encoding a decoded id gives the id back: `id` is a bijection onto all of u64. */
  lemma IdOfFromId(n: U64)
    ensures Id(FromId(n)) == n
  {
    var le := LeBytes(n, 8);
    var c := FromId(n);
    assert le[0..2] == [le[0], le[1]];
    assert le[2..4] == [le[2], le[3]];
    assert le[4..6] == [le[4], le[5]];
    assert le[6..] == [le[6], le[7]];
    I16LeBytesOfPair(le[0], le[1]);
    I16LeBytesOfPair(le[2], le[3]);
    I16LeBytesOfPair(le[4], le[5]);
    I16LeBytesOfPair(le[6], le[7]);
    var bs := I16LeBytes(c.a) + I16LeBytes(c.b) + I16LeBytes(c.radius) + I16LeBytes(c.layer);
    assert bs == [le[7], le[6], le[5], le[4], le[3], le[2], le[1], le[0]];
    forall i | 0 <= i < 8 ensures Reverse(le)[i] == bs[i] {
      ReverseAt(le, i);
    }
    assert bs == Reverse(le);
    Pow256Values();
    FoldOfReversedLeBytes(n, 8);
  }

  lemma IdInjective(x: HexCell, y: HexCell)
    ensures Id(x) == Id(y) <==> x == y
  {
    FromIdOfId(x);
    FromIdOfId(y);
  }

  // ---------------------------------------------------------------------------------------
  // Order

  datatype Ordering = Less | Equal | Greater

  function CompareU64(x: U64, y: U64): Ordering {
    if x < y then Less else if x == y then Equal else Greater
  }

  /** `Ord::cmp`: cells compare by their ids. */
  function Cmp(x: HexCell, y: HexCell): (r: Ordering)
    ensures r == Equal <==> x == y
  {
    IdInjective(x, y);
    CompareU64(Id(x), Id(y))
  }

  /** `PartialOrd::partial_cmp` always agrees with `cmp`. */
  function PartialCmp(x: HexCell, y: HexCell): (r: Option<Ordering>)
    ensures r == Some(Cmp(x, y))
  {
    Some(CompareU64(Id(x), Id(y)))
  }

  /** `cmp` is a total order: antisymmetric, transitive and total, with Equal meaning equality. */
  lemma CmpIsTotalOrder(x: HexCell, y: HexCell, z: HexCell)
    ensures Cmp(x, y) == Less <==> Cmp(y, x) == Greater
    ensures Cmp(x, y) == Equal <==> Cmp(y, x) == Equal
    ensures Cmp(x, y) != Greater && Cmp(y, z) != Greater ==> Cmp(x, z) != Greater
    ensures Cmp(x, y) == Less && Cmp(y, z) == Less ==> Cmp(x, z) == Less
  {
  }

  /** `with_layer` replaces the layer and nothing else. */
  function WithLayer(c: HexCell, layer: I16): (r: HexCell)
    ensures r.layer == layer
    ensures r.a == c.a && r.b == c.b && r.radius == c.radius
  {
    c.(layer := layer)
  }

  /** `id_without_layer`: the id of the same cell on layer 0. */
  function IdWithoutLayer(c: HexCell): U64 {
    Id(WithLayer(c, 0))
  }

  /** The id splits into the a/b/radius bytes (high 48 bits) and the layer bytes (low 16 bits). */
  lemma IdSplit(c: HexCell)
    ensures Id(c) / 0x1_0000 == FoldBytes64(I16LeBytes(c.a) + I16LeBytes(c.b) + I16LeBytes(c.radius))
    ensures Id(c) % 0x1_0000 == I16LeBytes(c.layer)[0] as int * 0x100 + I16LeBytes(c.layer)[1]
  {
    var p := I16LeBytes(c.a) + I16LeBytes(c.b) + I16LeBytes(c.radius);
    var l := I16LeBytes(c.layer);
    var bs := p + l;
    assert bs[..7] == p + [l[0]];
    assert (p + [l[0]])[..6] == p;
    FoldBytes64Exact(bs);
    FoldBytes64Exact(bs[..7]);
    FoldBytes64Exact(p);
    Pow256Values();
    var f := FoldBytes64(p);
    assert Id(c) == (f * 0x100 + l[0]) * 0x100 + l[1];
    assert Id(c) == f * 0x1_0000 + (l[0] as int * 0x100 + l[1]);
  }

  /** `id_without_layer` clears exactly the two layer bytes of the id, so cells that differ
      only in their layer share it, and it decodes to the same cell on layer 0. */
  lemma IdWithoutLayerClearsLayer(c: HexCell, d: HexCell)
    ensures IdWithoutLayer(c) == Id(c) - Id(c) % 0x1_0000
    ensures WithLayer(c, 0) == WithLayer(d, 0) ==> IdWithoutLayer(c) == IdWithoutLayer(d)
    ensures FromId(IdWithoutLayer(c)) == c.(layer := 0)
  {
    IdSplit(c);
    IdSplit(WithLayer(c, 0));
    assert I16LeBytes(0) == [0, 0];
    FromIdOfId(WithLayer(c, 0));
  }

  // ---------------------------------------------------------------------------------------
  // Neighbours

  datatype Direction = N | NE | SE | S | SW | NW | UP | DOWN

  /** The order in which `is_neighbor` and `get_all_neighbors` list the directions. */
  const AllDirections: seq<Direction> := [N, NE, SE, S, SW, NW, UP, DOWN]

  /** `get_neighbor`, with Rust's release-build wrapping on i16 overflow. */
  function GetNeighbor(c: HexCell, d: Direction): HexCell {
    match d
    case N => HexCell(c.a, Wrap16(c.b + 1), c.radius, c.layer)
    case NE => HexCell(Wrap16(c.a + 1), c.b, c.radius, c.layer)
    case SE => HexCell(Wrap16(c.a + 1), Wrap16(c.b - 1), c.radius, c.layer)
    case S => HexCell(c.a, Wrap16(c.b - 1), c.radius, c.layer)
    case SW => HexCell(Wrap16(c.a - 1), c.b, c.radius, c.layer)
    case NW => HexCell(Wrap16(c.a - 1), Wrap16(c.b + 1), c.radius, c.layer)
    case UP => HexCell(c.a, c.b, c.radius, Wrap16(c.layer + 1))
    case DOWN => HexCell(c.a, c.b, c.radius, Wrap16(c.layer - 1))
  }

  /** The offset table of the axial grid: (delta a, delta b, delta layer) per direction. */
  function Offset(d: Direction): (int, int, int) {
    match d
    case N => (0, 1, 0)
    case NE => (1, 0, 0)
    case SE => (1, -1, 0)
    case S => (0, -1, 0)
    case SW => (-1, 0, 0)
    case NW => (-1, 1, 0)
    case UP => (0, 0, 1)
    case DOWN => (0, 0, -1)
  }

  function Opposite(d: Direction): (r: Direction)
    ensures Offset(r).0 == -Offset(d).0 && Offset(r).1 == -Offset(d).1 && Offset(r).2 == -Offset(d).2
  {
    match d
    case N => S
    case NE => SW
    case SE => NW
    case S => N
    case SW => NE
    case NW => SE
    case UP => DOWN
    case DOWN => UP
  }

  /** Each direction moves by its table offset, keeps the radius, and moves the layer only for
      UP and DOWN; without overflow the coordinates change by exactly the offset. */
  lemma NeighborOffset(c: HexCell, d: Direction)
    ensures GetNeighbor(c, d).radius == c.radius
    ensures GetNeighbor(c, d).a == Wrap16(c.a + Offset(d).0)
    ensures GetNeighbor(c, d).b == Wrap16(c.b + Offset(d).1)
    ensures GetNeighbor(c, d).layer == Wrap16(c.layer + Offset(d).2)
    ensures d != UP && d != DOWN ==> GetNeighbor(c, d).layer == c.layer
    ensures d == UP || d == DOWN ==> GetNeighbor(c, d).a == c.a && GetNeighbor(c, d).b == c.b
    ensures -0x8000 <= c.a + Offset(d).0 < 0x8000 ==> GetNeighbor(c, d).a == c.a + Offset(d).0
    ensures -0x8000 <= c.b + Offset(d).1 < 0x8000 ==> GetNeighbor(c, d).b == c.b + Offset(d).1
  {
  }

  /** Opposite directions cancel: N/S, NE/SW, SE/NW, UP/DOWN. */
  lemma OppositeCancels(c: HexCell, d: Direction)
    ensures GetNeighbor(GetNeighbor(c, d), Opposite(d)) == c
  {
    var o := Offset(d);
    NeighborOffset(c, d);
    NeighborOffset(GetNeighbor(c, d), Opposite(d));
    WrapCancels(c.a, o.0);
    WrapCancels(c.b, o.1);
    WrapCancels(c.layer, o.2);
  }

  /** Wrapping addition of k is undone by wrapping addition of -k. */
  lemma WrapCancels(x: I16, k: int)
    ensures Wrap16(Wrap16(x + k) + -k) == x
  {
    Wrap16Add(x + k, -k);
    assert Wrap16(x) == x;
  }

  /** `get_all_neighbors`: the neighbour in each of the eight directions, in list order. */
  function GetAllNeighbors(c: HexCell): (r: seq<HexCell>)
    ensures |r| == |AllDirections|
    ensures forall i :: 0 <= i < |r| ==> r[i].radius == c.radius
  {
    seq(|AllDirections|, i requires 0 <= i < |AllDirections| => GetNeighbor(c, AllDirections[i]))
  }

  /** `is_neighbor`: same radius and one step away in some direction. */
  predicate IsNeighbor(c: HexCell, other: HexCell) {
    if c.radius != other.radius then false
    else exists i :: 0 <= i < |AllDirections| && GetNeighbor(c, AllDirections[i]) == other
  }

  /** Every direction is listed. */
  lemma AllDirectionsComplete(d: Direction)
    ensures d in AllDirections
  {
  }

  /** The neighbourhood of `get_all_neighbors` is the one `is_neighbor` tests. */
  lemma IsNeighborIffListed(c: HexCell, other: HexCell)
    ensures IsNeighbor(c, other) <==> other in GetAllNeighbors(c)
    ensures c.radius != other.radius ==> !IsNeighbor(c, other)
  {
    var all := GetAllNeighbors(c);
    if IsNeighbor(c, other) {
      var i :| 0 <= i < |AllDirections| && GetNeighbor(c, AllDirections[i]) == other;
      assert all[i] == other;
    }
    if other in all {
      var i :| 0 <= i < |all| && all[i] == other;
      assert GetNeighbor(c, AllDirections[i]) == other;
    }
  }

  /** Being neighbours is symmetric. */
  lemma IsNeighborSymmetric(c: HexCell, other: HexCell)
    ensures IsNeighbor(c, other) ==> IsNeighbor(other, c)
  {
    if IsNeighbor(c, other) {
      var i :| 0 <= i < |AllDirections| && GetNeighbor(c, AllDirections[i]) == other;
      var back := Opposite(AllDirections[i]);
      OppositeCancels(c, AllDirections[i]);
      AllDirectionsComplete(back);
      var j :| 0 <= j < |AllDirections| && AllDirections[j] == back;
      assert GetNeighbor(other, AllDirections[j]) == c;
    }
  }

  /** No cell is its own neighbour, even where a coordinate wraps around. */
  lemma IsNeighborIrreflexive(c: HexCell)
    ensures !IsNeighbor(c, c)
  {
    forall i | 0 <= i < |AllDirections| ensures GetNeighbor(c, AllDirections[i]) != c {
      var d := AllDirections[i];
      NeighborOffset(c, d);
      if Offset(d).0 != 0 {
        Wrap16Moves(c.a, Offset(d).0);
      } else if Offset(d).1 != 0 {
        Wrap16Moves(c.b, Offset(d).1);
      } else {
        Wrap16Moves(c.layer, Offset(d).2);
      }
    }
  }

  /** The eight listed neighbours are pairwise distinct. */
  lemma AllNeighborsDistinct(c: HexCell)
    ensures forall i, j :: 0 <= i < j < |GetAllNeighbors(c)| ==> GetAllNeighbors(c)[i] != GetAllNeighbors(c)[j]
  {
    StepsDistinct(c.a);
    StepsDistinct(c.b);
    StepsDistinct(c.layer);
  }

  /** One step up, one step down and no step give three different i16 values. */
  lemma StepsDistinct(x: I16)
    ensures Wrap16(x + 1) != x && Wrap16(x - 1) != x && Wrap16(x + 1) != Wrap16(x - 1)
  {
    Wrap16Moves(x, 1);
    Wrap16Moves(x, -1);
    Wrap16Moves(Wrap16(x + 1), -2);
    Wrap16Add(x + 1, -2);
  }
}
