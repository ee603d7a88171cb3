/** The segmentation loop of `Blocks::from_file` (src/blocks.rs): sample the
    image every `codel_size` pixels, column by column, and put each sample in
    the first block of its type that it touches, or in a new block. The image
    is given as its width, height and a pixel function; decoding the file is
    not part of this model. */
module Segmentation {
  import opened Wrappers
  import opened PietBlocks
  import RustInt

  // ---------------------------------------------------------------------
  // The order of the samples
  // ---------------------------------------------------------------------

  /** The samples of column `x` from row `y` on: `y`, `y + cs`, ... below `h`. */
  function ColumnFrom(x: int, y: int, h: int, cs: int): seq<Coord>
    requires cs > 0
    decreases h - y
  {
    if y >= h then [] else [(x, y)] + ColumnFrom(x, y + cs, h, cs)
  }

  /** The samples of the columns `x`, `x + cs`, ... left of `w`. */
  function ColumnsFrom(x: int, w: int, h: int, cs: int): seq<Coord>
    requires cs > 0
    decreases w - x
  {
    if x >= w then [] else ColumnFrom(x, 0, h, cs) + ColumnsFrom(x + cs, w, h, cs)
  }

  /** Every coordinate `from_file` visits, in the order it visits them. */
  function Samples(w: nat, h: nat, cs: int): seq<Coord>
    requires cs > 0
  {
    ColumnsFrom(0, w, h, cs)
  }

  /** A coordinate of the codel grid: inside the image, both components
      multiples of the codel size. */
  ghost predicate OnGrid(c: Coord, w: nat, h: nat, cs: int)
    requires cs > 0
  {
    0 <= c.0 < w && 0 <= c.1 < h && c.0 % cs == 0 && c.1 % cs == 0
  }

  ghost predicate Distinct(s: seq<Coord>)
  {
    forall i, j | 0 <= i < j < |s| :: s[i] != s[j]
  }

  lemma MultipleAtLeast(d: int, cs: int)
    requires cs > 0 && d > 0 && d % cs == 0
    ensures d >= cs
  {
    var q := d / cs;
    assert d == cs * q;
    if q > 0 {
      assert cs * q >= cs * 1;
    }
  }

  lemma DistinctConcat(a: seq<Coord>, b: seq<Coord>)
    requires Distinct(a) && Distinct(b)
    requires forall c | c in a :: c !in b
    ensures Distinct(a + b)
  {
    forall i, j | 0 <= i < j < |a + b|
      ensures (a + b)[i] != (a + b)[j]
    {
      if j >= |a| && i < |a| {
        assert (a + b)[i] in a && (a + b)[j] in b;
      } else if i >= |a| {
        assert (a + b)[i] == b[i - |a|] && (a + b)[j] == b[j - |a|];
      }
    }
  }

  lemma {:induction false} ColumnFromShape(x: int, y: int, h: int, cs: int)
    requires cs > 0 && y % cs == 0
    ensures forall c | c in ColumnFrom(x, y, h, cs) :: c.0 == x && y <= c.1 < h && c.1 % cs == 0
    ensures forall v | y <= v < h && v % cs == 0 :: (x, v) in ColumnFrom(x, y, h, cs)
    ensures Distinct(ColumnFrom(x, y, h, cs))
    decreases h - y
  {
    if y < h {
      RustInt.ModAddMultiple(y, 1, cs);
      ColumnFromShape(x, y + cs, h, cs);
      var rest := ColumnFrom(x, y + cs, h, cs);
      forall v | y < v < h && v % cs == 0
        ensures (x, v) in rest
      {
        RustInt.ModAddMultiple(v - cs, 1, cs);
        MultipleAtLeast(v - y, cs) by {
          RustInt.ModAddMultiple(v - y - cs, 1, cs);
          assert (v - y) % cs == (v - cs) % cs by {
            assert cs * (y / cs) + (v - y) == v;
            RustInt.ModAddMultiple(v - y, y / cs, cs);
          }
        }
      }
      DistinctConcat([(x, y)], rest);
    }
  }

  lemma {:induction false} ColumnsFromShape(x: int, w: int, h: int, cs: int)
    requires cs > 0 && x % cs == 0
    ensures forall c | c in ColumnsFrom(x, w, h, cs) :: x <= c.0 < w && c.0 % cs == 0 && 0 <= c.1 < h && c.1 % cs == 0
    ensures forall c: Coord | x <= c.0 < w && c.0 % cs == 0 && 0 <= c.1 < h && c.1 % cs == 0 :: c in ColumnsFrom(x, w, h, cs)
    ensures Distinct(ColumnsFrom(x, w, h, cs))
    decreases w - x
  {
    if x < w {
      RustInt.ModAddMultiple(x, 1, cs);
      ColumnFromShape(x, 0, h, cs);
      ColumnsFromShape(x + cs, w, h, cs);
      var col, rest := ColumnFrom(x, 0, h, cs), ColumnsFrom(x + cs, w, h, cs);
      forall c: Coord | x < c.0 < w && c.0 % cs == 0 && 0 <= c.1 < h && c.1 % cs == 0
        ensures c in rest
      {
        assert cs * (x / cs) + (c.0 - x) == c.0;
        RustInt.ModAddMultiple(c.0 - x, x / cs, cs);
        MultipleAtLeast(c.0 - x, cs);
      }
      DistinctConcat(col, rest);
    }
  }

  /** The samples are exactly the codel grid, each visited once: x and y are
      multiples of the codel size, `0 <= x < w` and `0 <= y < h`. */
  lemma SamplesAreGrid(w: nat, h: nat, cs: int)
    requires cs > 0
    ensures forall c :: c in Samples(w, h, cs) <==> OnGrid(c, w, h, cs)
    ensures Distinct(Samples(w, h, cs))
  {
    ColumnsFromShape(0, w, h, cs);
  }

  // ---------------------------------------------------------------------
  // One sample, and the whole loop, as functions
  // ---------------------------------------------------------------------

  /** The condition under which a sample of type `t` at `c` joins block `b`. */
  predicate Joins(b: Block, t: Type, c: Coord)
  {
    b.t == t && b.IsNextTo(c)
  }

  /** The index the inner `for i in 0..blocks.len()` loop stops at: the first
      block at or after `from` that the sample joins, or `|blocks|`. */
  function FirstMatch(blocks: seq<Block>, t: Type, c: Coord, from: nat): (k: nat)
    requires from <= |blocks|
    ensures from <= k <= |blocks|
    ensures k < |blocks| ==> Joins(blocks[k], t, c)
    ensures forall j | from <= j < k :: !Joins(blocks[j], t, c)
    decreases |blocks| - from
  {
    if from == |blocks| then from
    else if Joins(blocks[from], t, c) then from
    else FirstMatch(blocks, t, c, from + 1)
  }

  /** The body of the sampling loop for one coordinate of type `t`. */
  function Place(bs: Blocks, c: Coord, t: Type): Blocks
  {
    var k := FirstMatch(bs.blocks, t, c, 0);
    if k < |bs.blocks| then
      Blocks(bs.blocks[k := bs.blocks[k].(coords := bs.blocks[k].coords + {c})], bs.lookup[c := k])
    else
      Blocks(bs.blocks + [Block(t, {c})], bs.lookup[c := |bs.blocks|])
  }

  /** The panic of `to_blocktype` on a colour outside the palette. */
  datatype SegmentError = InvalidColor(at: Coord, color: Rgb)

  /** The loop over the samples still to do, starting from the blocks built
      so far. */
  function Segment(bs: Blocks, todo: seq<Coord>, pixel: Coord -> Rgb): Result<Blocks, SegmentError>
    decreases |todo|
  {
    if todo == [] then Ok(bs)
    else
      var c := todo[0];
      match ToBlockType(pixel(c))
      case None => Err(InvalidColor(c, pixel(c)))
      case Some(t) => Segment(Place(bs, c, t), todo[1..], pixel)
  }

  /** What `from_file` builds from a `w` by `h` image. */
  function Segmentation(w: nat, h: nat, cs: int, pixel: Coord -> Rgb): Result<Blocks, SegmentError>
    requires cs > 0
  {
    Segment(Blocks([], map[]), Samples(w, h, cs), pixel)
  }

  /** Running the loop over `a + b` is running it over `a`, then over `b`. */
  lemma {:induction false} SegmentAppend(bs: Blocks, a: seq<Coord>, b: seq<Coord>, pixel: Coord -> Rgb)
    ensures Segment(bs, a + b, pixel) ==
              match Segment(bs, a, pixel)
              case Err(e) => Err(e)
              case Ok(mid) => Segment(mid, b, pixel)
    decreases |a|
  {
    if a != [] {
      SegmentStep(bs, a[0], a[1..] + b, pixel);
      assert a + b == [a[0]] + (a[1..] + b);
      if t :| ToBlockType(pixel(a[0])) == Some(t) {
        SegmentAppend(Place(bs, a[0], t), a[1..], b, pixel);
      }
    } else {
      assert a + b == b;
    }
  }

  lemma SegmentStep(bs: Blocks, c: Coord, rest: seq<Coord>, pixel: Coord -> Rgb)
    ensures Segment(bs, [c] + rest, pixel) ==
              match ToBlockType(pixel(c))
              case None => Err(InvalidColor(c, pixel(c)))
              case Some(t) => Segment(Place(bs, c, t), rest, pixel)
  {
    assert ([c] + rest)[0] == c && ([c] + rest)[1..] == rest;
  }

  // ---------------------------------------------------------------------
  // The loop itself
  // ---------------------------------------------------------------------

  /** The inner loop of `from_file` for one sample: scan the blocks in order,
      add the sample to the first one it joins and stop; if none, append a new
      block. */
  method PlaceSample(blocks: seq<Block>, lookup: map<Coord, nat>, coord: Coord, t: Type)
    returns (blocks': seq<Block>, lookup': map<Coord, nat>)
    ensures Blocks(blocks', lookup') == Place(Blocks(blocks, lookup), coord, t)
  {
    blocks', lookup' := blocks, lookup;
    var found := false;
    var i := 0;
    while i < |blocks'|
      invariant 0 <= i <= |blocks'|
      invariant !found && blocks' == blocks && lookup' == lookup
      invariant forall j | 0 <= j < i :: !Joins(blocks'[j], t, coord)
    {
      if blocks'[i].t == t && blocks'[i].IsNextTo(coord) {
        assert FirstMatch(blocks, t, coord, 0) == i;
        blocks' := blocks'[i := blocks'[i].(coords := blocks'[i].coords + {coord})];
        lookup' := lookup'[coord := i];
        found := true;
        break;
      }
      i := i + 1;
    }
    if !found {
      blocks' := blocks' + [Block(t, {coord})];
      lookup' := lookup'[coord := |blocks'| - 1];
    }
  }

  /** The row loop of `from_file` for column `x`, continuing the blocks built
      so far; stops at the first pixel outside the palette. */
  method SampleColumn(blocks: seq<Block>, lookup: map<Coord, nat>, x: int, h: nat, cs: int, pixel: Coord -> Rgb)
    returns (r: Result<Blocks, SegmentError>)
    requires cs > 0
    ensures r == Segment(Blocks(blocks, lookup), ColumnFrom(x, 0, h, cs), pixel)
  {
    ghost var spec := Segment(Blocks(blocks, lookup), ColumnFrom(x, 0, h, cs), pixel);
    var blocks, lookup := blocks, lookup;
    var y := 0;
    while y < h
      invariant Segment(Blocks(blocks, lookup), ColumnFrom(x, y, h, cs), pixel) == spec
      decreases h - y
    {
      var coord: Coord := (x, y);
      SegmentStep(Blocks(blocks, lookup), coord, ColumnFrom(x, y + cs, h, cs), pixel);
      var t := ToBlockType(pixel(coord));
      if t.None? {
        return Err(InvalidColor(coord, pixel(coord)));
      }
      blocks, lookup := PlaceSample(blocks, lookup, coord, t.value);
      y := y + cs;
    }
    r := Ok(Blocks(blocks, lookup));
  }

  /** `Blocks::from_file` over a decoded image: the column loop, the row loop
      inside it and the search for a block inside that. */
  method FromImage(w: nat, h: nat, codelSize: int, pixel: Coord -> Rgb) returns (r: Result<Blocks, SegmentError>)
    requires codelSize > 0
    ensures r == Segmentation(w, h, codelSize, pixel)
  {
    var cs := codelSize;
    ghost var spec := Segmentation(w, h, cs, pixel);
    var blocks: seq<Block> := [];
    var lookup: map<Coord, nat> := map[];
    var x := 0;
    while x < w
      invariant Segment(Blocks(blocks, lookup), ColumnsFrom(x, w, h, cs), pixel) == spec
      decreases w - x
    {
      SegmentAppend(Blocks(blocks, lookup), ColumnFrom(x, 0, h, cs), ColumnsFrom(x + cs, w, h, cs), pixel);
      var column := SampleColumn(blocks, lookup, x, h, cs, pixel);
      if column.Err? {
        return column;
      }
      blocks, lookup := column.value.blocks, column.value.lookup;
      x := x + cs;
    }
    r := Ok(Blocks(blocks, lookup));
  }

  // ---------------------------------------------------------------------
  // What the segmentation guarantees
  // ---------------------------------------------------------------------

  /** Valid blocks whose every codel was classified with its block's type. */
  ghost predicate Consistent(bs: Blocks, pixel: Coord -> Rgb)
  {
    && bs.Valid()
    && forall i, c | 0 <= i < |bs.blocks| && c in bs.blocks[i].coords :: ToBlockType(pixel(c)) == Some(bs.blocks[i].t)
  }

  /** Placing a fresh sample keeps the lookup and the blocks in agreement and
      adds exactly that sample to the lookup. */
  lemma PlaceKeepsConsistent(bs: Blocks, c: Coord, t: Type, pixel: Coord -> Rgb)
    requires Consistent(bs, pixel) && c !in bs.lookup && ToBlockType(pixel(c)) == Some(t)
    ensures Consistent(Place(bs, c, t), pixel)
    ensures Place(bs, c, t).lookup.Keys == bs.lookup.Keys + {c}
  {
    var k := FirstMatch(bs.blocks, t, c, 0);
    if k < |bs.blocks| {
      JoinKeepsConsistent(bs, c, t, k, pixel);
    } else {
      AppendKeepsConsistent(bs, c, t, pixel);
    }
  }

  /** Adding a fresh sample of type `t` to block `k` of type `t`. */
  lemma JoinKeepsConsistent(bs: Blocks, c: Coord, t: Type, k: nat, pixel: Coord -> Rgb)
    requires Consistent(bs, pixel) && c !in bs.lookup && ToBlockType(pixel(c)) == Some(t)
    requires k < |bs.blocks| && bs.blocks[k].t == t
    ensures var r := Blocks(bs.blocks[k := bs.blocks[k].(coords := bs.blocks[k].coords + {c})], bs.lookup[c := k]);
            Consistent(r, pixel) && r.lookup.Keys == bs.lookup.Keys + {c}
  {
    var r := Blocks(bs.blocks[k := bs.blocks[k].(coords := bs.blocks[k].coords + {c})], bs.lookup[c := k]);
    forall i, d | 0 <= i < |r.blocks| && d in r.blocks[i].coords
      ensures d in r.lookup && r.lookup[d] == i
    {
      if d != c {
        assert d in bs.blocks[i].coords;
      }
    }
  }

  /** Appending a new block holding only a fresh sample. */
  lemma AppendKeepsConsistent(bs: Blocks, c: Coord, t: Type, pixel: Coord -> Rgb)
    requires Consistent(bs, pixel) && c !in bs.lookup && ToBlockType(pixel(c)) == Some(t)
    ensures var r := Blocks(bs.blocks + [Block(t, {c})], bs.lookup[c := |bs.blocks|]);
            Consistent(r, pixel) && r.lookup.Keys == bs.lookup.Keys + {c}
  {
    var r := Blocks(bs.blocks + [Block(t, {c})], bs.lookup[c := |bs.blocks|]);
    forall i, d | 0 <= i < |r.blocks| && d in r.blocks[i].coords
      ensures d in r.lookup && r.lookup[d] == i
    {
      if i < |bs.blocks| {
        assert d in bs.blocks[i].coords;
      }
    }
  }

  /** The tail of a sequence without repeats has none either and does not
      hold its head. */
  lemma DistinctTail(todo: seq<Coord>)
    requires Distinct(todo) && todo != []
    ensures Distinct(todo[1..])
    ensures todo[0] !in todo[1..]
    ensures (set d | d in todo) == {todo[0]} + set d | d in todo[1..]
  {
    var rest := todo[1..];
    forall i, j | 0 <= i < j < |rest| ensures rest[i] != rest[j] {
      assert rest[i] == todo[i + 1] && rest[j] == todo[j + 1];
    }
    forall j | 0 <= j < |rest| ensures rest[j] != todo[0] {
      assert rest[j] == todo[j + 1];
    }
    assert forall d :: d in todo <==> d == todo[0] || d in rest;
  }

  /** The loop over distinct, not yet placed samples keeps the invariant and
      places every one of them. */
  lemma {:induction false} SegmentKeepsConsistent(bs: Blocks, todo: seq<Coord>, pixel: Coord -> Rgb)
    requires Consistent(bs, pixel) && Distinct(todo)
    requires forall c | c in todo :: c !in bs.lookup
    ensures Segment(bs, todo, pixel).Ok? ==>
              && Consistent(Segment(bs, todo, pixel).value, pixel)
              && Segment(bs, todo, pixel).value.lookup.Keys == bs.lookup.Keys + set c | c in todo
    decreases |todo|
  {
    if todo != [] {
      var c := todo[0];
      if t :| ToBlockType(pixel(c)) == Some(t) {
        PlaceKeepsConsistent(bs, c, t, pixel);
        var rest := todo[1..];
        DistinctTail(todo);
        SegmentKeepsConsistent(Place(bs, c, t), rest, pixel);
      }
    }
  }

  /** The segmentation fails exactly when some sampled pixel is outside the
      palette, and then reports such a pixel. */
  lemma {:induction false} SegmentErrors(bs: Blocks, todo: seq<Coord>, pixel: Coord -> Rgb)
    ensures Segment(bs, todo, pixel).Err? <==> exists c :: c in todo && ToBlockType(pixel(c)) == None
    ensures Segment(bs, todo, pixel).Err? ==>
              var e := Segment(bs, todo, pixel).error;
              e.at in todo && e.color == pixel(e.at) && ToBlockType(e.color) == None
    decreases |todo|
  {
    if todo != [] {
      var c := todo[0];
      if t :| ToBlockType(pixel(c)) == Some(t) {
        SegmentErrors(Place(bs, c, t), todo[1..], pixel);
        assert forall d :: d in todo <==> d == c || d in todo[1..];
      }
    }
  }

  /** On success, every sampled coordinate is in exactly one block and the
      lookup names that block; the blocks are pairwise disjoint, non-empty,
      single-typed, each connected at one-pixel distance, and cover exactly
      the codel grid. On failure, the error
      names a sampled pixel outside the palette, and there is one. */
  lemma SegmentationProperties(w: nat, h: nat, cs: int, pixel: Coord -> Rgb)
    requires cs > 0
    ensures Segmentation(w, h, cs, pixel).Ok? ==>
              var bs := Segmentation(w, h, cs, pixel).value;
              && Consistent(bs, pixel)
              && (forall c :: c in bs.lookup <==> OnGrid(c, w, h, cs))
              && (forall i | 0 <= i < |bs.blocks| :: Connected(bs.blocks[i].coords))
    ensures Segmentation(w, h, cs, pixel).Err? <==> exists c :: OnGrid(c, w, h, cs) && ToBlockType(pixel(c)) == None
    ensures Segmentation(w, h, cs, pixel).Err? ==>
              var e := Segmentation(w, h, cs, pixel).error;
              OnGrid(e.at, w, h, cs) && e.color == pixel(e.at) && ToBlockType(e.color) == None
  {
    SamplesAreGrid(w, h, cs);
    SegmentKeepsConsistent(Blocks([], map[]), Samples(w, h, cs), pixel);
    SegmentKeepsConnected(Blocks([], map[]), Samples(w, h, cs), pixel);
    SegmentErrors(Blocks([], map[]), Samples(w, h, cs), pixel);
  }

  /** A sample joins the lowest-indexed block of its type that it touches, or
      else becomes a new block at the end; the other blocks are unchanged. */
  lemma PlaceJoinsLowest(bs: Blocks, c: Coord, t: Type)
    ensures var r := Place(bs, c, t);
            && c in r.lookup
            && (forall j | 0 <= j < |bs.blocks| && j < r.lookup[c] :: !Joins(bs.blocks[j], t, c))
            && (r.lookup[c] < |bs.blocks| ==>
                  && Joins(bs.blocks[r.lookup[c]], t, c)
                  && r.blocks == bs.blocks[r.lookup[c] := Block(t, bs.blocks[r.lookup[c]].coords + {c})])
            && (r.lookup[c] >= |bs.blocks| ==>
                  r.lookup[c] == |bs.blocks| && r.blocks == bs.blocks + [Block(t, {c})])
  {
  }

  /** Every block is connected. */
  ghost predicate AllConnected(blocks: seq<Block>)
  {
    forall i | 0 <= i < |blocks| :: Connected(blocks[i].coords)
  }

  /** Placing a sample keeps every block connected: the sample joins a block
      only one pixel away from one of its codels, or starts a block of its
      own. */
  lemma PlaceKeepsConnected(bs: Blocks, c: Coord, t: Type)
    requires AllConnected(bs.blocks)
    ensures AllConnected(Place(bs, c, t).blocks)
  {
    PlaceJoinsLowest(bs, c, t);
    var r := Place(bs, c, t);
    var k := r.lookup[c];
    if k < |bs.blocks| {
      var b := bs.blocks[k];
      IsNextToIffUnitDistance(b, c);
      var d :| d in b.coords && Distance(c, d) == 1;
      ConnectedExtend(b.coords, c, d);
      assert r.blocks[k].coords == b.coords + {c};
    } else {
      SingletonConnected(c);
      assert r.blocks[|bs.blocks|].coords == {c};
    }
  }

  /** The loop keeps every block connected. */
  lemma {:induction false} SegmentKeepsConnected(bs: Blocks, todo: seq<Coord>, pixel: Coord -> Rgb)
    requires AllConnected(bs.blocks)
    ensures Segment(bs, todo, pixel).Ok? ==> AllConnected(Segment(bs, todo, pixel).value.blocks)
    decreases |todo|
  {
    if todo != [] {
      var c := todo[0];
      if t :| ToBlockType(pixel(c)) == Some(t) {
        PlaceKeepsConnected(bs, c, t);
        SegmentKeepsConnected(Place(bs, c, t), todo[1..], pixel);
      }
    }
  }

  /** Blocks are never removed, merged or retyped: the loop only adds codels
      to existing blocks and appends new ones, so the block count never
      decreases. */
  lemma {:induction false} SegmentGrows(bs: Blocks, todo: seq<Coord>, pixel: Coord -> Rgb)
    ensures Segment(bs, todo, pixel).Ok? ==>
              var r := Segment(bs, todo, pixel).value;
              && |bs.blocks| <= |r.blocks|
              && forall i | 0 <= i < |bs.blocks| :: r.blocks[i].t == bs.blocks[i].t && bs.blocks[i].coords <= r.blocks[i].coords
    decreases |todo|
  {
    if todo != [] {
      var c := todo[0];
      if t :| ToBlockType(pixel(c)) == Some(t) {
        SegmentGrows(Place(bs, c, t), todo[1..], pixel);
      }
    }
  }

  lemma NeighbourOffGrid(x: int, cs: int)
    requires cs > 1 && x % cs == 0
    ensures (x + 1) % cs != 0 && (x - 1) % cs != 0
  {
    var q := x / cs;
    assert x == cs * q;
    var a, b := (x + 1) / cs, (x + 1) % cs;
    assert cs * (q - a) == b - 1;
    RustInt.SmallMultiple(cs, q - a, b - 1);
    var a', b' := (x - 1) / cs, (x - 1) % cs;
    assert cs * (q - 1 - a') == b' - (cs - 1);
    RustInt.SmallMultiple(cs, q - 1 - a', b' - (cs - 1));
  }

  /** Every block holds a single codel, on the codel grid. */
  ghost predicate Singletons(bs: Blocks, cs: int)
    requires cs > 0
  {
    forall i | 0 <= i < |bs.blocks| ::
      && |bs.blocks[i].coords| == 1
      && forall c | c in bs.blocks[i].coords :: c.0 % cs == 0 && c.1 % cs == 0
  }

  lemma {:induction false} SegmentSingletons(bs: Blocks, todo: seq<Coord>, cs: int, pixel: Coord -> Rgb)
    requires cs > 1 && Singletons(bs, cs)
    requires forall c | c in todo :: c.0 % cs == 0 && c.1 % cs == 0
    ensures Segment(bs, todo, pixel).Ok? ==> Singletons(Segment(bs, todo, pixel).value, cs)
    decreases |todo|
  {
    if todo != [] {
      var c := todo[0];
      if t :| ToBlockType(pixel(c)) == Some(t) {
        NeighbourOffGrid(c.0, cs);
        NeighbourOffGrid(c.1, cs);
        forall j | 0 <= j < |bs.blocks|
          ensures !bs.blocks[j].IsNextTo(c)
        {
          var (x, y) := c;
          assert (x - 1, y) !in bs.blocks[j].coords && (x + 1, y) !in bs.blocks[j].coords;
          assert (x, y - 1) !in bs.blocks[j].coords && (x, y + 1) !in bs.blocks[j].coords;
        }
        assert FirstMatch(bs.blocks, t, c, 0) == |bs.blocks|;
        assert Singletons(Place(bs, c, t), cs);
        SegmentSingletons(Place(bs, c, t), todo[1..], cs, pixel);
      }
    }
  }

  /** With a codel size above one, `is_next_to` looks one pixel away, where
      no sample ever lies, so no sample joins an earlier block: every block
      is a single codel. */
  lemma WideCodelsGiveSingletons(w: nat, h: nat, cs: int, pixel: Coord -> Rgb)
    requires cs > 1
    ensures Segmentation(w, h, cs, pixel).Ok? ==>
              var bs := Segmentation(w, h, cs, pixel).value;
              forall i | 0 <= i < |bs.blocks| :: |bs.blocks[i].coords| == 1
  {
    SamplesAreGrid(w, h, cs);
    SegmentSingletons(Blocks([], map[]), Samples(w, h, cs), cs, pixel);
  }

  /** A 2 by 3 image, all normal red except a black pixel at (0, 1). */
  function SplitPixel(c: Coord): Rgb
  {
    if c == (0, 1) then Rgb(0x00, 0x00, 0x00) else Rgb(0xff, 0x00, 0x00)
  }

  /** The first column of that image gives three blocks: red, black, red. */
  lemma SplitFirstColumn()
    ensures Segment(Blocks([], map[]), [(0, 0), (0, 1), (0, 2)], SplitPixel) ==
              Ok(Blocks([Block(Color(Normal, Red), {(0, 0)}), Block(Black, {(0, 1)}), Block(Color(Normal, Red), {(0, 2)})],
                        map[(0, 0) := 0, (0, 1) := 1, (0, 2) := 2]))
  {
    var red := Color(Normal, Red);
    assert ToBlockType(SplitPixel((0, 0))) == Some(red);
    assert ToBlockType(SplitPixel((0, 1))) == Some(Black);
    assert ToBlockType(SplitPixel((0, 2))) == Some(red);
    var b0 := Blocks([], map[]);
    var b1 := Blocks([Block(red, {(0, 0)})], map[(0, 0) := 0]);
    var b2 := Blocks([Block(red, {(0, 0)}), Block(Black, {(0, 1)})], map[(0, 0) := 0, (0, 1) := 1]);
    var b3 := Blocks([Block(red, {(0, 0)}), Block(Black, {(0, 1)}), Block(red, {(0, 2)})],
                     map[(0, 0) := 0, (0, 1) := 1, (0, 2) := 2]);
    assert Place(b0, (0, 0), red) == b1;
    assert FirstMatch(b1.blocks, Black, (0, 1), 0) == 1;
    assert Place(b1, (0, 1), Black) == b2;
    assert !b2.blocks[0].IsNextTo((0, 2));
    assert FirstMatch(b2.blocks, red, (0, 2), 0) == 2;
    assert Place(b2, (0, 2), red) == b3;
    SegmentStep(b2, (0, 2), [], SplitPixel);
    assert Segment(b2, [(0, 2)], SplitPixel) == Ok(b3);
    SegmentStep(b1, (0, 1), [(0, 2)], SplitPixel);
    assert Segment(b1, [(0, 1), (0, 2)], SplitPixel) == Ok(b3);
    SegmentStep(b0, (0, 0), [(0, 1), (0, 2)], SplitPixel);
  }

  /** In the second column every red sample joins block 0. */
  lemma SplitSecondColumn()
    ensures var red := Color(Normal, Red);
            Segment(Blocks([Block(red, {(0, 0)}), Block(Black, {(0, 1)}), Block(red, {(0, 2)})],
                           map[(0, 0) := 0, (0, 1) := 1, (0, 2) := 2]),
                    [(1, 0), (1, 1), (1, 2)], SplitPixel) ==
              Ok(Blocks([Block(red, {(0, 0), (1, 0), (1, 1), (1, 2)}), Block(Black, {(0, 1)}), Block(red, {(0, 2)})],
                        map[(0, 0) := 0, (0, 1) := 1, (0, 2) := 2, (1, 0) := 0, (1, 1) := 0, (1, 2) := 0]))
  {
    var red := Color(Normal, Red);
    assert ToBlockType(SplitPixel((1, 0))) == Some(red);
    assert ToBlockType(SplitPixel((1, 1))) == Some(red);
    assert ToBlockType(SplitPixel((1, 2))) == Some(red);
    var rest := [Block(Black, {(0, 1)}), Block(red, {(0, 2)})];
    var m3 := map[(0, 0) := 0, (0, 1) := 1, (0, 2) := 2];
    var b3 := Blocks([Block(red, {(0, 0)})] + rest, m3);
    var b4 := Blocks([Block(red, {(0, 0), (1, 0)})] + rest, m3[(1, 0) := 0]);
    var b5 := Blocks([Block(red, {(0, 0), (1, 0), (1, 1)})] + rest, m3[(1, 0) := 0][(1, 1) := 0]);
    var b6 := Blocks([Block(red, {(0, 0), (1, 0), (1, 1), (1, 2)})] + rest, m3[(1, 0) := 0][(1, 1) := 0][(1, 2) := 0]);
    assert b3.blocks[0].IsNextTo((1, 0));
    assert FirstMatch(b3.blocks, red, (1, 0), 0) == 0;
    assert {(0, 0)} + {(1, 0)} == {(0, 0), (1, 0)};
    assert b3.blocks[0 := Block(red, {(0, 0), (1, 0)})] == b4.blocks;
    assert Place(b3, (1, 0), red) == b4;
    assert (1, 0) in b4.blocks[0].coords;
    assert FirstMatch(b4.blocks, red, (1, 1), 0) == 0;
    assert {(0, 0), (1, 0)} + {(1, 1)} == {(0, 0), (1, 0), (1, 1)};
    assert b4.blocks[0 := Block(red, {(0, 0), (1, 0), (1, 1)})] == b5.blocks;
    assert Place(b4, (1, 1), red) == b5;
    assert (1, 1) in b5.blocks[0].coords;
    assert FirstMatch(b5.blocks, red, (1, 2), 0) == 0;
    assert {(0, 0), (1, 0), (1, 1)} + {(1, 2)} == {(0, 0), (1, 0), (1, 1), (1, 2)};
    assert b5.blocks[0 := Block(red, {(0, 0), (1, 0), (1, 1), (1, 2)})] == b6.blocks;
    assert Place(b5, (1, 2), red) == b6;
    SegmentStep(b5, (1, 2), [], SplitPixel);
    assert Segment(b5, [(1, 2)], SplitPixel) == Ok(b6);
    SegmentStep(b4, (1, 1), [(1, 2)], SplitPixel);
    assert Segment(b4, [(1, 1), (1, 2)], SplitPixel) == Ok(b6);
    SegmentStep(b3, (1, 0), [(1, 1), (1, 2)], SplitPixel);
    assert [Block(red, {(0, 0)})] + rest == [Block(red, {(0, 0)}), Block(Black, {(0, 1)}), Block(red, {(0, 2)})];
    assert b6.blocks == [Block(red, {(0, 0), (1, 0), (1, 1), (1, 2)}), Block(Black, {(0, 1)}), Block(red, {(0, 2)})];
    assert b6.lookup == map[(0, 0) := 0, (0, 1) := 1, (0, 2) := 2, (1, 0) := 0, (1, 1) := 0, (1, 2) := 0];
  }

  /** Segmentation does not produce maximal regions: in the image above the
      red pixels form one connected region, yet (0, 2) is sampled before
      anything red touches it and stays in a block of its own, even after its
      red neighbour (1, 2) joins block 0. */
  lemma SplitRegionExample()
    ensures var r := Segmentation(2, 3, 1, SplitPixel);
            && r.Ok?
            && |r.value.blocks| == 3
            && (1, 2) in r.value.lookup && r.value.lookup[(1, 2)] == 0
            && (0, 2) in r.value.lookup && r.value.lookup[(0, 2)] == 2
            && r.value.blocks[0].t == r.value.blocks[2].t == Color(Normal, Red)
            && Distance((0, 2), (1, 2)) == 1
  {
    assert Samples(2, 3, 1) == [(0, 0), (0, 1), (0, 2)] + [(1, 0), (1, 1), (1, 2)];
    SplitFirstColumn();
    SplitSecondColumn();
    SegmentAppend(Blocks([], map[]), [(0, 0), (0, 1), (0, 2)], [(1, 0), (1, 1), (1, 2)], SplitPixel);
  }
}
