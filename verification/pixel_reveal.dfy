/**
 * Which cells of a PixelGrid are drawn for a given `visiblePixels` count. The
 * render walks the grid in row-major order, bumping a running counter at every
 * content cell; a cell is drawn when it is a content cell and the counter,
 * after its own bump, is at most `visiblePixels`.
 */
module PixelReveal {
  import opened Grids

  /** 1-based rank of cell (r, c) among the content cells, in row-major order. */
  function Rank(g: Grid, r: nat, c: nat): nat
    requires r < |g| && c < |g[r]|
  {
    |NonZero(Flatten(g[..r]) + g[r][..c + 1])|
  }

  /** The per-cell rule: a content cell whose rank is within the reveal count. */
  predicate IsVisible(g: Grid, r: nat, c: nat, visiblePixels: nat)
    requires r < |g| && c < |g[r]|
  {
    g[r][c] != 0 && Rank(g, r, c) <= visiblePixels
  }

  /** The same rule on the flattened cells: position i is drawn. */
  predicate FlatVisible(s: seq<int>, i: nat, visiblePixels: nat)
    requires i < |s|
  {
    s[i] != 0 && |NonZero(s[..i + 1])| <= visiblePixels
  }

  /** The positions of the flattened cells that are drawn. */
  function VisibleSet(s: seq<int>, visiblePixels: nat): set<nat>
  {
    set i: nat | i < |s| && FlatVisible(s, i, visiblePixels)
  }

  /**
   * The render loop: one running counter over all rows, rows then columns.
   * Returns, for every cell, whether it is drawn.
   */
  method Render(g: Grid, visiblePixels: nat) returns (shown: seq<seq<bool>>)
    ensures |shown| == |g|
    ensures forall r :: 0 <= r < |g| ==> |shown[r]| == |g[r]|
    ensures forall r, c :: 0 <= r < |g| && 0 <= c < |g[r]| ==>
              (shown[r][c] <==> g[r][c] != 0 && Rank(g, r, c) <= visiblePixels)
  {
    var counter := 0;
    shown := [];
    var r := 0;
    while r < |g|
      invariant 0 <= r <= |g|
      invariant |shown| == r
      invariant forall i :: 0 <= i < r ==> |shown[i]| == |g[i]|
      invariant forall i, j :: 0 <= i < r && 0 <= j < |g[i]| ==>
                  (shown[i][j] <==> IsVisible(g, i, j, visiblePixels))
      invariant counter == |NonZero(Flatten(g[..r]))|
    {
      var row;
      row, counter := RenderRow(g, r, visiblePixels, counter);
      shown := shown + [row];
      r := r + 1;
    }
  }

  /** One row of the render loop, continuing the counter left by the rows above it. */
  method RenderRow(g: Grid, r: nat, visiblePixels: nat, counterIn: nat) returns (row: seq<bool>, counter: nat)
    requires r < |g|
    requires counterIn == |NonZero(Flatten(g[..r]))|
    ensures |row| == |g[r]|
    ensures forall j :: 0 <= j < |g[r]| ==> (row[j] <==> IsVisible(g, r, j, visiblePixels))
    ensures counter == |NonZero(Flatten(g[..r + 1]))|
  {
    counter := counterIn;
    row := [];
    var c := 0;
    assert Flatten(g[..r]) + g[r][..0] == Flatten(g[..r]);
    while c < |g[r]|
      invariant 0 <= c <= |g[r]|
      invariant |row| == c
      invariant forall j :: 0 <= j < c ==> (row[j] <==> IsVisible(g, r, j, visiblePixels))
      invariant counter == |NonZero(Flatten(g[..r]) + g[r][..c])|
    {
      var isPixel := g[r][c] != 0;
      RankStep(g, r, c);
      if isPixel {
        counter := counter + 1;
      }
      row := row + [isPixel && counter <= visiblePixels];
      c := c + 1;
    }
    RowEnd(g, r);
  }

  /** The running counter after cell (r, c) is the cell's rank. */
  lemma RankStep(g: Grid, r: nat, c: nat)
    requires r < |g| && c < |g[r]|
    ensures Rank(g, r, c) ==
              |NonZero(Flatten(g[..r]) + g[r][..c])| + (if g[r][c] != 0 then 1 else 0)
  {
    var above := Flatten(g[..r]);
    assert above + g[r][..c + 1] == (above + g[r][..c]) + [g[r][c]];
    NonZeroSnoc(above + g[r][..c], g[r][c]);
  }

  /** At the end of row r the counter covers the first r + 1 rows. */
  lemma RowEnd(g: Grid, r: nat)
    requires r < |g|
    ensures Flatten(g[..r]) + g[r][..|g[r]|] == Flatten(g[..r + 1])
  {
    assert g[r][..|g[r]|] == g[r];
    FlattenSnoc(g, r);
  }

  /** The grid rule and the flattened rule agree cell by cell. */
  lemma GridVisibleIsFlatVisible(g: Grid, r: nat, c: nat, visiblePixels: nat)
    requires r < |g| && c < |g[r]|
    ensures Offset(g, r, c) < |Flatten(g)|
    ensures IsVisible(g, r, c, visiblePixels) <==>
              FlatVisible(Flatten(g), Offset(g, r, c), visiblePixels)
  {
    FlattenCell(g, r, c);
  }

  /**
   * Every drawn position of the flattening is the position of exactly one
   * drawn grid cell, so the drawn grid cells and the drawn positions (counted
   * by VisibleCountIsMin) correspond one to one.
   */
  lemma FlatVisibleIsGridCell(g: Grid, visiblePixels: nat, i: nat) returns (r: nat, c: nat)
    requires i in VisibleSet(Flatten(g), visiblePixels)
    ensures r < |g| && c < |g[r]| && Offset(g, r, c) == i
    ensures IsVisible(g, r, c, visiblePixels)
    ensures forall r': nat, c': nat :: r' < |g| && c' < |g[r']| && Offset(g, r', c') == i ==> r' == r && c' == c
  {
    r, c := OffsetOnto(g, i);
    GridVisibleIsFlatVisible(g, r, c, visiblePixels);
    forall r': nat, c': nat | r' < |g| && c' < |g[r']| && Offset(g, r', c') == i
      ensures r' == r && c' == c
    {
      OffsetInjective(g, r, c, r', c');
    }
  }

  /** Transparent cells are never drawn. */
  lemma ZeroNeverVisible(g: Grid, r: nat, c: nat, visiblePixels: nat)
    requires r < |g| && c < |g[r]|
    requires g[r][c] == 0
    ensures !IsVisible(g, r, c, visiblePixels)
  {
  }

  /** Raising the count never hides a cell. */
  lemma VisibleMonotone(s: seq<int>, v1: nat, v2: nat)
    requires v1 <= v2
    ensures VisibleSet(s, v1) <= VisibleSet(s, v2)
  {
  }

  /** The drawn cells are an initial run of the content cells: no content cell before a drawn one is hidden. */
  lemma VisibleIsDownwardClosed(s: seq<int>, visiblePixels: nat, i: nat, j: nat)
    requires j < i < |s|
    requires i in VisibleSet(s, visiblePixels)
    requires s[j] != 0
    ensures j in VisibleSet(s, visiblePixels)
  {
    PrefixCountMonotone(s, j + 1, i + 1);
  }

  /** Drawing only depends on the cells up to and including the one drawn. */
  lemma FlatVisiblePrefix(s: seq<int>, n: nat, i: nat, visiblePixels: nat)
    requires i < n <= |s|
    ensures FlatVisible(s, i, visiblePixels) == FlatVisible(s[..n], i, visiblePixels)
  {
    assert s[..n][..i + 1] == s[..i + 1];
  }

  /** Extending the cells by one leaves earlier decisions alone and may add the new position. */
  lemma VisibleSetSnoc(s: seq<int>, visiblePixels: nat)
    requires |s| > 0
    ensures VisibleSet(s, visiblePixels) ==
              VisibleSet(s[..|s| - 1], visiblePixels)
              + (if FlatVisible(s, |s| - 1, visiblePixels) then {|s| - 1} else {})
  {
    var n := |s| - 1;
    forall i: nat | i < n
      ensures FlatVisible(s, i, visiblePixels) == FlatVisible(s[..n], i, visiblePixels)
    {
      FlatVisiblePrefix(s, n, i, visiblePixels);
    }
  }

  /** Exactly min(visiblePixels, totalPixels) cells are drawn. */
  lemma {:induction false} VisibleCountIsMin(s: seq<int>, visiblePixels: nat)
    ensures |VisibleSet(s, visiblePixels)| ==
              if visiblePixels <= |NonZero(s)| then visiblePixels else |NonZero(s)|
  {
    if |s| == 0 {
      assert VisibleSet(s, visiblePixels) == {};
    } else {
      var n := |s| - 1;
      var s' := s[..n];
      assert s == s' + [s[n]];
      VisibleCountIsMin(s', visiblePixels);
      NonZeroSnoc(s', s[n]);
      VisibleSetSnoc(s, visiblePixels);
      assert n !in VisibleSet(s', visiblePixels);
      assert s[..n + 1] == s;
    }
  }

  /** Once the count reaches the total, every content cell is drawn. */
  lemma AllContentVisible(s: seq<int>, visiblePixels: nat)
    requires |NonZero(s)| <= visiblePixels
    ensures VisibleSet(s, visiblePixels) == ContentPositions(s)
  {
    forall i: nat | i < |s| && s[i] != 0
      ensures FlatVisible(s, i, visiblePixels)
    {
      PrefixCountMonotone(s, i + 1, |s|);
      assert s[..|s|] == s;
    }
  }

  /** With the count at or past the total, every content cell of the grid is drawn. */
  lemma GridFullyRevealed(g: Grid, visiblePixels: nat, r: nat, c: nat)
    requires TotalPixels(g) <= visiblePixels
    requires r < |g| && c < |g[r]|
    ensures IsVisible(g, r, c, visiblePixels) <==> g[r][c] != 0
  {
    FlattenCell(g, r, c);
    var s := Flatten(g);
    var k := |Flatten(g[..r])| + c;
    PrefixCountMonotone(s, k + 1, |s|);
    assert s[..|s|] == s;
  }
}
