/**
 * The pixel-art data of the PixelGrid component: five grids of cell codes, the
 * `type` prop that selects one, its row-major flattening and its content cells.
 * A cell code 0 is transparent; every other code is a coloured pixel.
 */
module Grids {

  type Grid = seq<seq<int>>

  const BearGrid: Grid := [
    [0,0,0,1,1,0,0,0,0,1,1,0,0,0],
    [0,0,1,1,1,1,0,0,1,1,1,1,0,0],
    [0,0,1,1,1,1,1,1,1,1,1,1,0,0],
    [0,1,1,1,2,1,1,1,1,2,1,1,1,0],
    [0,1,1,1,2,1,1,1,1,2,1,1,1,0],
    [0,1,1,1,1,1,2,2,1,1,1,1,1,0],
    [0,1,1,1,1,1,1,1,1,1,1,1,1,0],
    [0,0,1,1,1,2,1,1,2,1,1,1,0,0],
    [0,0,0,1,1,1,2,2,1,1,1,0,0,0],
    [0,0,0,0,1,1,1,1,1,1,0,0,0,0],
    [0,0,0,0,1,1,1,1,1,1,0,0,0,0],
    [0,0,0,1,1,0,0,0,0,1,1,0,0,0],
    [0,0,1,1,0,0,0,0,0,0,1,1,0,0]
  ]

  const HeartGrid: Grid := [
    [0,0,1,1,0,0,0,1,1,0,0],
    [0,1,1,1,1,0,1,1,1,1,0],
    [1,1,1,1,1,1,1,1,1,1,1],
    [1,1,1,1,1,1,1,1,1,1,1],
    [0,1,1,1,1,1,1,1,1,1,0],
    [0,0,1,1,1,1,1,1,1,0,0],
    [0,0,0,1,1,1,1,1,0,0,0],
    [0,0,0,0,1,1,1,0,0,0,0],
    [0,0,0,0,0,1,0,0,0,0,0]
  ]

  const TreeGrid: Grid := [
    [0,0,0,0,0,3,3,0,0,0,0,0],
    [0,0,0,0,3,3,3,3,0,0,0,0],
    [0,0,0,3,3,3,3,3,3,0,0,0],
    [0,0,3,3,3,3,3,3,3,3,0,0],
    [0,3,3,3,3,3,3,3,3,3,3,0],
    [3,3,3,3,3,3,3,3,3,3,3,3],
    [0,0,3,3,3,3,3,3,3,3,0,0],
    [0,0,0,3,3,3,3,3,3,0,0,0],
    [0,0,0,0,4,4,4,4,0,0,0,0],
    [0,0,0,0,4,4,4,4,0,0,0,0],
    [0,0,0,4,4,4,4,4,4,0,0,0]
  ]

  const KittyGrid: Grid := [
    [0,0,0,0,5,5,0,0,0,5,5,0],
    [0,0,0,5,5,5,5,0,5,1,1,5],
    [0,0,0,0,5,5,0,1,1,1,1,1],
    [0,1,1,1,0,0,1,1,1,1,1,1],
    [1,1,1,1,1,1,1,1,1,1,1,1],
    [1,1,1,1,1,1,1,1,1,1,1,1],
    [1,1,2,1,1,1,1,1,2,1,1,1],
    [1,1,1,1,1,3,1,1,1,1,1,1],
    [1,1,1,1,1,1,1,1,1,1,1,1],
    [0,1,1,1,1,1,1,1,1,1,1,0],
    [0,0,1,1,1,1,1,1,1,1,0,0]
  ]

  const PenguinGrid: Grid := [
    [0,0,1,1,1,1,0,0],
    [0,1,1,1,1,1,1,0],
    [1,1,0,1,1,0,1,1],
    [1,1,1,1,1,1,1,1],
    [0,1,1,1,1,1,1,0],
    [0,2,2,2,2,2,2,0],
    [0,2,2,2,2,2,2,0],
    [0,0,3,0,0,3,0,0]
  ]

  /** The names that select a grid of their own; every other name gets the penguin. */
  const NamedKinds: set<string> := {"bear", "heart", "tree", "kitty"}

  /** The grid the `type` prop selects: a chain of equality tests ending in the penguin. */
  function SelectGrid(kind: string): Grid {
    if kind == "bear" then BearGrid
    else if kind == "heart" then HeartGrid
    else if kind == "tree" then TreeGrid
    else if kind == "kitty" then KittyGrid
    else PenguinGrid
  }

  /** Every name outside the four named kinds, "penguin" and "bird" included, falls through to the penguin. */
  lemma UnknownKindIsPenguin(kind: string)
    requires kind !in NamedKinds
    ensures SelectGrid(kind) == PenguinGrid
  {
  }

  /** Scene 3 of the page asks for a "bird" grid, which no branch names. */
  lemma BirdIsPenguin()
    ensures SelectGrid("bird") == PenguinGrid
    ensures SelectGrid("bird") == SelectGrid("penguin")
  {
    UnknownKindIsPenguin("bird");
  }

  /** Row-major concatenation of the rows, first row first. */
  function Flatten(g: Grid): seq<int>
  {
    if |g| == 0 then [] else Flatten(g[..|g| - 1]) + g[|g| - 1]
  }

  /** The content (non-zero) cells of `s`, in order: the filter `p !== 0`. */
  function NonZero(s: seq<int>): seq<int>
  {
    if |s| == 0 then []
    else if s[|s| - 1] != 0 then NonZero(s[..|s| - 1]) + [s[|s| - 1]]
    else NonZero(s[..|s| - 1])
  }

  /** The number of content cells of a grid. */
  function TotalPixels(g: Grid): nat
  {
    |NonZero(Flatten(g))|
  }

  /** The positions of `s` that hold a content cell: an independent statement of what is counted. */
  function ContentPositions(s: seq<int>): set<nat>
  {
    set i: nat | i < |s| && s[i] != 0
  }

  lemma FlattenSnoc(g: Grid, r: nat)
    requires r < |g|
    ensures Flatten(g[..r + 1]) == Flatten(g[..r]) + g[r]
  {
    assert g[..r + 1][..r] == g[..r];
  }

  /** Flattening the first `r` rows gives a prefix of the whole flattening. */
  lemma {:induction false} FlattenPrefix(g: Grid, r: nat)
    requires r <= |g|
    ensures Flatten(g[..r]) <= Flatten(g)
    decreases |g| - r
  {
    if r == |g| {
      assert g[..r] == g;
    } else {
      FlattenPrefix(g, r + 1);
      FlattenSnoc(g, r);
    }
  }

  /** Cell (r, c) of the grid sits at position |Flatten(g[..r])| + c of the flattening. */
  lemma FlattenCell(g: Grid, r: nat, c: nat)
    requires r < |g| && c < |g[r]|
    ensures |Flatten(g[..r])| + c < |Flatten(g)|
    ensures Flatten(g)[..|Flatten(g[..r])| + c + 1] == Flatten(g[..r]) + g[r][..c + 1]
    ensures Flatten(g)[|Flatten(g[..r])| + c] == g[r][c]
  {
    FlattenSnoc(g, r);
    FlattenPrefix(g, r + 1);
    var pre := Flatten(g[..r + 1]);
    var k := |Flatten(g[..r])| + c + 1;
    assert pre[..k] == Flatten(g[..r]) + g[r][..c + 1];
    assert Flatten(g)[..k] == pre[..k];
  }

  /** The position of cell (r, c) in the row-major flattening. */
  function Offset(g: Grid, r: nat, c: nat): nat
    requires r <= |g|
  {
    |Flatten(g[..r])| + c
  }

  /** The rows above a later row flatten to at least as many cells, plus the earlier row itself. */
  lemma RowsAboveGrow(g: Grid, r1: nat, r2: nat)
    requires r1 < r2 <= |g|
    ensures |Flatten(g[..r1])| + |g[r1]| <= |Flatten(g[..r2])|
  {
    FlattenSnoc(g, r1);
    var h := g[..r2];
    assert h[..r1 + 1] == g[..r1 + 1];
    FlattenPrefix(h, r1 + 1);
  }

  /** Distinct cells sit at distinct positions of the flattening. */
  lemma OffsetInjective(g: Grid, r1: nat, c1: nat, r2: nat, c2: nat)
    requires r1 < |g| && c1 < |g[r1]| && r2 < |g| && c2 < |g[r2]|
    requires Offset(g, r1, c1) == Offset(g, r2, c2)
    ensures r1 == r2 && c1 == c2
  {
    if r1 < r2 {
      RowsAboveGrow(g, r1, r2);
    } else if r2 < r1 {
      RowsAboveGrow(g, r2, r1);
    }
  }

  /** Every position of the flattening is the position of some cell. */
  lemma {:induction false} OffsetOnto(g: Grid, i: nat) returns (r: nat, c: nat)
    requires i < |Flatten(g)|
    ensures r < |g| && c < |g[r]|
    ensures Offset(g, r, c) == i
  {
    var n := |g| - 1;
    var h := g[..n];
    assert Flatten(g) == Flatten(h) + g[n];
    if i < |Flatten(h)| {
      r, c := OffsetOnto(h, i);
      assert h[..r] == g[..r] && h[r] == g[r];
    } else {
      r, c := n, i - |Flatten(h)|;
    }
  }

  lemma NonZeroSnoc(s: seq<int>, x: int)
    ensures NonZero(s + [x]) == if x != 0 then NonZero(s) + [x] else NonZero(s)
  {
    assert (s + [x])[..|s|] == s;
  }

  /** Filtering distributes over concatenation. */
  lemma {:induction false} NonZeroAppend(a: seq<int>, b: seq<int>)
    ensures NonZero(a + b) == NonZero(a) + NonZero(b)
    decreases |b|
  {
    if |b| == 0 {
      assert a + b == a;
    } else {
      var b' := b[..|b| - 1];
      var x := b[|b| - 1];
      assert b == b' + [x];
      assert a + b == (a + b') + [x];
      NonZeroAppend(a, b');
      NonZeroSnoc(a + b', x);
      NonZeroSnoc(b', x);
    }
  }

  /**
   * The filter keeps exactly the content cells, each as often as it occurs, so
   * it is never longer than its input.
   */
  lemma {:induction false} NonZeroContents(s: seq<int>)
    ensures multiset(NonZero(s)) == multiset(s)[0 := 0]
    ensures |NonZero(s)| <= |s|
    ensures forall i :: 0 <= i < |NonZero(s)| ==> NonZero(s)[i] != 0
    ensures forall i :: 0 <= i < |s| && s[i] != 0 ==> s[i] in NonZero(s)
  {
    if |s| > 0 {
      var s' := s[..|s| - 1];
      assert s == s' + [s[|s| - 1]];
      NonZeroContents(s');
      NonZeroSnoc(s', s[|s| - 1]);
      assert multiset(s) == multiset(s') + multiset{s[|s| - 1]};
      forall i | 0 <= i < |s| - 1 && s[i] != 0
        ensures s[i] in NonZero(s)
      {
        assert s'[i] == s[i];
      }
    }
  }

  /** Counting is monotone along prefixes. */
  lemma PrefixCountMonotone(s: seq<int>, i: nat, j: nat)
    requires i <= j <= |s|
    ensures |NonZero(s[..i])| <= |NonZero(s[..j])|
  {
    assert s[..j] == s[..i] + s[i..j];
    NonZeroAppend(s[..i], s[i..j]);
  }

  /** The length of the filter is the number of content positions. */
  lemma {:induction false} CountIsContentPositions(s: seq<int>)
    ensures |NonZero(s)| == |ContentPositions(s)|
  {
    if |s| > 0 {
      var n := |s| - 1;
      var s' := s[..n];
      assert s == s' + [s[n]];
      CountIsContentPositions(s');
      NonZeroSnoc(s', s[n]);
      ContentPositionsSnoc(s);
    }
  }

  /** The content positions of `s` are those of all but its last cell, plus the last one if it is content. */
  lemma ContentPositionsSnoc(s: seq<int>)
    requires |s| > 0
    ensures |s| - 1 !in ContentPositions(s[..|s| - 1])
    ensures ContentPositions(s) ==
              ContentPositions(s[..|s| - 1]) + (if s[|s| - 1] != 0 then {|s| - 1} else {})
  {
    var n := |s| - 1;
    forall i: nat | i < n
      ensures (i in ContentPositions(s)) == (i in ContentPositions(s[..n]))
    {
      assert s[..n][i] == s[i];
    }
  }

  /** `totalPixels` is the number of non-zero entries of the row-major flattening. */
  lemma TotalPixelsCountsContent(g: Grid)
    ensures TotalPixels(g) == |ContentPositions(Flatten(g))|
    ensures TotalPixels(g) <= |Flatten(g)|
  {
    CountIsContentPositions(Flatten(g));
    NonZeroContents(Flatten(g));
  }
}
