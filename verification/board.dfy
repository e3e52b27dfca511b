/** The logical board: integer positions on a 15 x 11 grid, the reserved hint
    button cell, one raw random draw per cell, and the duplicate check used by
    the position generator and by click resolution. */
module Board {

  /** A board (or screen) coordinate; value semantics, like ge211::Posn<int>. */
  datatype Pos = Pos(x: int, y: int)

  /** Number of tile columns and rows that fit on the screen. */
  const Cols: int := 15
  const Rows: int := 11

  /** The hint button always sits in the bottom-right cell. */
  const HintButton: Pos := Pos(14, 10)

  /** The value wrong_posn_ and hint_posn_ start from and are reset to. */
  const Origin: Pos := Pos(0, 0)

  predicate OnGrid(p: Pos) {
    0 <= p.x < Cols && 0 <= p.y < Rows
  }

  /** Two consecutive rand() results (never negative), x first. */
  datatype Draw = Draw(rx: nat, ry: nat)

  /** get_rand_posn_: reduces a raw draw to a grid cell. */
  function RandPosn(d: Draw): (p: Pos)
    ensures OnGrid(p)
    ensures OnGrid(Pos(d.rx, d.ry)) ==> p == Pos(d.rx, d.ry)
  {
    Pos(d.rx % Cols, d.ry % Rows)
  }

  /** std::count over a sequence of positions. */
  function Count(v: seq<Pos>, p: Pos): (n: nat)
    ensures n == multiset(v)[p]
  {
    if |v| == 0 then 0
    else
      assert v == [v[0]] + v[1..];
      (if v[0] == p then 1 else 0) + Count(v[1..], p)
  }

  /** check_duplicates_: does p already occur in v? */
  function CheckDuplicates(p: Pos, v: seq<Pos>): (b: bool)
    ensures b <==> p in v
  {
    Count(v, p) > 0
  }

  predicate Distinct(v: seq<Pos>) {
    forall i, j :: 0 <= i < j < |v| ==> v[i] != v[j]
  }

  /** A legal tile layout: pairwise distinct cells on the grid, none of them
      the reserved cell `avoid`. */
  predicate Layout(v: seq<Pos>, avoid: Pos) {
    && Distinct(v)
    && forall i :: 0 <= i < |v| ==> OnGrid(v[i]) && v[i] != avoid
  }

  function Elements(v: seq<Pos>): set<Pos> {
    set p | p in v
  }

  /** Removing the head tile keeps a layout legal. */
  lemma LayoutTail(v: seq<Pos>, avoid: Pos)
    requires |v| > 0
    ensures Layout(v, avoid) ==> Layout(v[1..], avoid)
  {
  }

  /** Appending a fresh legal cell keeps a layout legal. */
  lemma LayoutAppend(v: seq<Pos>, p: Pos, avoid: Pos)
    requires Layout(v, avoid) && OnGrid(p) && p != avoid && p !in v
    ensures Layout(v + [p], avoid)
  {
  }

  /** A sequence without repeats has as many elements as it has entries. */
  lemma {:induction false} DistinctCard(v: seq<Pos>)
    requires Distinct(v)
    ensures |Elements(v)| == |v|
  {
    if |v| > 0 {
      var t := v[1..];
      assert Distinct(t) by {
        forall i, j | 0 <= i < j < |t|
          ensures t[i] != t[j]
        {
          assert t[i] == v[i + 1] && t[j] == v[j + 1];
        }
      }
      DistinctCard(t);
      assert v == [v[0]] + t;
      assert Elements(v) == {v[0]} + Elements(t);
      assert forall k :: 0 <= k < |t| ==> t[k] == v[k + 1];
      assert v[0] !in Elements(t);
    }
  }

  /** Cells a layout may use: the whole grid except the hint button. */
  const Capacity: int := Cols * Rows - 1

  /** Row-major number of a cell; the hint button gets the last one. */
  function Code(p: Pos): int {
    p.y * Cols + p.x
  }

  /** A grid cell is recovered from its number. */
  lemma CodeDecode(p: Pos)
    requires OnGrid(p)
    ensures 0 <= Code(p) < Cols * Rows
    ensures p == Pos(Code(p) % Cols, Code(p) / Cols)
  {
  }

  /** At most m grid cells have a number below m. */
  lemma {:induction false} CodeBound(s: set<Pos>, m: nat)
    requires forall p :: p in s ==> OnGrid(p) && Code(p) < m
    ensures |s| <= m
  {
    if m == 0 {
      assert s == {};
    } else {
      var q := Pos((m - 1) % Cols, (m - 1) / Cols);
      var t := s - {q};
      forall p | p in t
        ensures OnGrid(p) && Code(p) < m - 1
      {
        CodeDecode(p);
      }
      CodeBound(t, m - 1);
      assert s <= t + {q};
    }
  }

  /** No legal layout has more tiles than the board has free cells. */
  lemma LayoutFits(v: seq<Pos>)
    ensures Layout(v, HintButton) ==> |v| <= Capacity
  {
    if Layout(v, HintButton) {
      DistinctCard(v);
      forall p | p in Elements(v)
        ensures OnGrid(p) && Code(p) < Capacity
      {
        CodeDecode(p);
      }
      CodeBound(Elements(v), Capacity);
    }
  }
}
