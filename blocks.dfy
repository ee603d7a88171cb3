/** Colours, codel blocks and the coordinate-to-block lookup of the Piet
    interpreter (src/blocks.rs). */
module PietBlocks {
  import opened Wrappers
  import RustInt

  /** The six hues, in the order of their `repr(u8)` discriminants. */
  datatype Hue = Red | Yellow | Green | Cyan | Blue | Magenta {
    function Index(): (i: nat)
      ensures i < 6
    {
      match this
      case Red => 0
      case Yellow => 1
      case Green => 2
      case Cyan => 3
      case Blue => 4
      case Magenta => 5
    }
  }

  /** The three lightness levels, in the order of their discriminants. */
  datatype Lightness = Light | Normal | Dark {
    function Index(): (i: nat)
      ensures i < 3
    {
      match this
      case Light => 0
      case Normal => 1
      case Dark => 2
    }
  }

  /** The semantic type of a codel. */
  datatype Type = Color(l: Lightness, h: Hue) | Black | White

  type Byte = b: int | 0 <= b < 256

  datatype Rgb = Rgb(r: Byte, g: Byte, b: Byte)

  /** `to_blocktype`: exact lookup in the 20-entry palette. `None` is the
      panic "Invalid color type" on any other triple. */
  function ToBlockType(color: Rgb): Option<Type>
  {
    match (color.r, color.g, color.b)
    case (0xff, 0xc0, 0xc0) => Some(Color(Light, Red))
    case (0xff, 0x00, 0x00) => Some(Color(Normal, Red))
    case (0xc0, 0x00, 0x00) => Some(Color(Dark, Red))
    case (0xff, 0xff, 0xc0) => Some(Color(Light, Yellow))
    case (0xff, 0xff, 0x00) => Some(Color(Normal, Yellow))
    case (0xc0, 0xc0, 0x00) => Some(Color(Dark, Yellow))
    case (0xc0, 0xff, 0xc0) => Some(Color(Light, Green))
    case (0x00, 0xff, 0x00) => Some(Color(Normal, Green))
    case (0x00, 0xc0, 0x00) => Some(Color(Dark, Green))
    case (0xc0, 0xff, 0xff) => Some(Color(Light, Cyan))
    case (0x00, 0xff, 0xff) => Some(Color(Normal, Cyan))
    case (0x00, 0xc0, 0xc0) => Some(Color(Dark, Cyan))
    case (0xc0, 0xc0, 0xff) => Some(Color(Light, Blue))
    case (0x00, 0x00, 0xff) => Some(Color(Normal, Blue))
    case (0x00, 0x00, 0xc0) => Some(Color(Dark, Blue))
    case (0xff, 0xc0, 0xff) => Some(Color(Light, Magenta))
    case (0xff, 0x00, 0xff) => Some(Color(Normal, Magenta))
    case (0xc0, 0x00, 0xc0) => Some(Color(Dark, Magenta))
    case (0x00, 0x00, 0x00) => Some(Black)
    case (0xff, 0xff, 0xff) => Some(White)
    case _ => None
  }

  /** The Piet palette rule, independent of the table above: a hue switches
      some of the three channels on; a lightness gives the level of the
      channels that are on and of those that are off. */
  function PaletteColor(t: Type): Rgb
  {
    match t
    case Black => Rgb(0x00, 0x00, 0x00)
    case White => Rgb(0xff, 0xff, 0xff)
    case Color(l, h) =>
      var (on, off) := match l
        case Light => (0xff, 0xc0)
        case Normal => (0xff, 0x00)
        case Dark => (0xc0, 0x00);
      var (r, g, b) := match h
        case Red => (true, false, false)
        case Yellow => (true, true, false)
        case Green => (false, true, false)
        case Cyan => (false, true, true)
        case Blue => (false, false, true)
        case Magenta => (true, false, true);
      Rgb(if r then on else off, if g then on else off, if b then on else off)
  }

  /** The classifier accepts exactly the 20 palette colours, and sends each
      to the type the palette rule gives it. */
  lemma ClassifiesExactlyPalette(color: Rgb, t: Type)
    ensures ToBlockType(color) == Some(t) <==> color == PaletteColor(t)
  {
    match t
    case Black =>
    case White =>
    case Color(l, h) =>
      match l
      case Light =>
      case Normal =>
      case Dark =>
  }

  /** Distinct types have distinct palette colours, so the 20 accepted triples
      are pairwise different. */
  lemma PaletteInjective(t1: Type, t2: Type)
    requires PaletteColor(t1) == PaletteColor(t2)
    ensures t1 == t2
  {
    ClassifiesExactlyPalette(PaletteColor(t1), t1);
    ClassifiesExactlyPalette(PaletteColor(t2), t2);
  }

  /** An image coordinate in pixels. */
  type Coord = (int, int)

  /** What the engine sees of a block: its type and its codel count. */
  datatype ViewableBlock = ViewableBlock(t: Type, num: nat)

  datatype Block = Block(t: Type, coords: set<Coord>) {
    /** `is_next_to`: one of the four pixels at offset one on a single axis
        belongs to the block. */
    predicate IsNextTo(other: Coord)
    {
      var (x, y) := other;
      (x - 1, y) in coords || (x + 1, y) in coords || (x, y - 1) in coords || (x, y + 1) in coords
    }

    function ToViewable(): ViewableBlock
    {
      ViewableBlock(t, |coords|)
    }
  }

  /** Pixel distance on the two axes together. */
  function Distance(a: Coord, b: Coord): nat
  {
    RustInt.Abs(a.0 - b.0) + RustInt.Abs(a.1 - b.1)
  }

  /** `is_next_to` holds exactly when some codel of the block is at distance
      one. */
  lemma IsNextToIffUnitDistance(b: Block, c: Coord)
    ensures b.IsNextTo(c) <==> exists d :: d in b.coords && Distance(c, d) == 1
  {
    var (x, y) := c;
    if b.IsNextTo(c) {
      if (x - 1, y) in b.coords {
        assert Distance(c, (x - 1, y)) == 1;
      } else if (x + 1, y) in b.coords {
        assert Distance(c, (x + 1, y)) == 1;
      } else if (x, y - 1) in b.coords {
        assert Distance(c, (x, y - 1)) == 1;
      } else {
        assert Distance(c, (x, y + 1)) == 1;
      }
    }
    if d :| d in b.coords && Distance(c, d) == 1 {
      assert d == (x - 1, y) || d == (x + 1, y) || d == (x, y - 1) || d == (x, y + 1);
    }
  }

  /** A walk through `s` that moves one pixel on one axis at each step. */
  ghost predicate Walk(p: seq<Coord>, s: set<Coord>)
  {
    && |p| > 0
    && (forall i | 0 <= i < |p| :: p[i] in s)
    && (forall i | 0 < i < |p| :: Distance(p[i - 1], p[i]) == 1)
  }

  /** Some walk through `s` leads from `a` to `b`. */
  ghost predicate Linked(s: set<Coord>, a: Coord, b: Coord)
  {
    exists p :: Walk(p, s) && p[0] == a && p[|p| - 1] == b
  }

  /** Every two codels of `s` are joined by a walk through `s`: the set is
      4-connected at one-pixel distance. */
  ghost predicate Connected(s: set<Coord>)
  {
    forall a, b | a in s && b in s :: Linked(s, a, b)
  }

  lemma WalkWidens(p: seq<Coord>, s: set<Coord>, s': set<Coord>)
    requires Walk(p, s) && s <= s'
    ensures Walk(p, s')
  {
  }

  /** Two walks whose ends are one pixel apart form one walk. */
  lemma WalkConcat(p: seq<Coord>, q: seq<Coord>, s: set<Coord>)
    requires Walk(p, s) && Walk(q, s) && Distance(p[|p| - 1], q[0]) == 1
    ensures Walk(p + q, s)
  {
    var r := p + q;
    forall i | 0 < i < |r|
      ensures Distance(r[i - 1], r[i]) == 1
    {
      if i < |p| {
        assert r[i - 1] == p[i - 1] && r[i] == p[i];
      } else if i == |p| {
        assert r[i - 1] == p[|p| - 1] && r[i] == q[0];
      } else {
        assert r[i - 1] == q[i - 1 - |p|] && r[i] == q[i - |p|];
      }
    }
  }

  /** A single codel is connected. */
  lemma SingletonConnected(c: Coord)
    ensures Connected({c})
  {
    assert Walk([c], {c});
  }

  /** A walk inside `s` is still a walk once `s` grows. */
  lemma LinkedWidens(s: set<Coord>, s': set<Coord>, a: Coord, b: Coord)
    requires Linked(s, a, b) && s <= s'
    ensures Linked(s', a, b)
  {
    var p :| Walk(p, s) && p[0] == a && p[|p| - 1] == b;
    WalkWidens(p, s, s');
  }

  /** A walk to `d` continues one more pixel to `c`. */
  lemma LinkedStep(s: set<Coord>, a: Coord, d: Coord, c: Coord)
    requires Linked(s, a, d) && c in s && Distance(d, c) == 1
    ensures Linked(s, a, c)
  {
    var p :| Walk(p, s) && p[0] == a && p[|p| - 1] == d;
    assert Walk([c], s);
    WalkConcat(p, [c], s);
    assert (p + [c])[0] == a && (p + [c])[|p + [c]| - 1] == c;
  }

  /** A walk from `d` can start one pixel earlier, at `c`. */
  lemma LinkedBack(s: set<Coord>, c: Coord, d: Coord, b: Coord)
    requires Linked(s, d, b) && c in s && Distance(c, d) == 1
    ensures Linked(s, c, b)
  {
    var p :| Walk(p, s) && p[0] == d && p[|p| - 1] == b;
    assert Walk([c], s);
    WalkConcat([c], p, s);
    assert ([c] + p)[0] == c && ([c] + p)[|[c] + p| - 1] == b;
  }

  /** Adding a codel one pixel away from a connected set keeps it
      connected. */
  lemma ConnectedExtend(s: set<Coord>, c: Coord, d: Coord)
    requires Connected(s) && d in s && Distance(c, d) == 1
    ensures Connected(s + {c})
  {
    var s' := s + {c};
    forall a, b | a in s' && b in s'
      ensures Linked(s', a, b)
    {
      if a in s && b in s {
        LinkedWidens(s, s', a, b);
      } else if a in s {
        LinkedWidens(s, s', a, d);
        LinkedStep(s', a, d, c);
      } else if b in s {
        LinkedWidens(s, s', d, b);
        LinkedBack(s', c, d, b);
      } else {
        assert Walk([c], s') && [c][0] == a && [c][0] == b;
      }
    }
  }

  /** The segmented program: the list of blocks and, for every sampled
      coordinate, the index of its block. */
  datatype Blocks = Blocks(blocks: seq<Block>, lookup: map<Coord, nat>) {

    /** The lookup agrees with the block sets in both directions, and no
        block is empty. */
    ghost predicate Valid()
    {
      && (forall c | c in lookup :: lookup[c] < |blocks| && c in blocks[lookup[c]].coords)
      && (forall i, c | 0 <= i < |blocks| && c in blocks[i].coords :: c in lookup && lookup[c] == i)
      && (forall i | 0 <= i < |blocks| :: blocks[i].coords != {})
    }

    function Len(): nat
    {
      |blocks|
    }

    /** `find_block_from_index`, in the form the engine calls it: `None` for a
        coordinate that was never sampled. */
    function FindBlockFromIndex(crd: Coord): (r: Option<Block>)
      ensures Valid() ==> (r.Some? <==> crd in lookup)
      ensures Valid() && r.Some? ==> crd in r.value.coords && r.value == blocks[lookup[crd]]
    {
      if crd in lookup && lookup[crd] < |blocks| then Some(blocks[lookup[crd]]) else None
    }
  }

  /** In a valid collection the blocks are pairwise disjoint, their union is
      the set of looked-up coordinates, and `Len()` is the number of distinct
      block indices the lookup uses. */
  lemma ValidIsPartition(bs: Blocks)
    requires bs.Valid()
    ensures forall i, j | 0 <= i < j < |bs.blocks| :: bs.blocks[i].coords !! bs.blocks[j].coords
    ensures forall c :: c in bs.lookup <==> exists i :: 0 <= i < |bs.blocks| && c in bs.blocks[i].coords
    ensures forall i :: i in bs.lookup.Values <==> 0 <= i < bs.Len()
  {
    forall i, j, c | 0 <= i < j < |bs.blocks| && c in bs.blocks[i].coords
      ensures c !in bs.blocks[j].coords
    {
      assert bs.lookup[c] == i;
    }
    forall i | 0 <= i < bs.Len()
      ensures i in bs.lookup.Values
    {
      assert bs.blocks[i].coords != {};
      var c :| c in bs.blocks[i].coords;
      assert bs.lookup[c] == i;
    }
  }
}
