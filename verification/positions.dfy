/** The round generator's position sampler, get_many_rand_posns_: draw a
    random cell, keep it unless it repeats an accepted cell or is the reserved
    cell, until there is one cell per letter. The source draws from rand()
    forever; here the draws are a finite stream given by the caller, and the
    sampler reports None when the stream runs out first. */
module Positions {
  import opened Wrappers
  import opened Board

  /** The accept/reject loop, with `v` the cells accepted so far. */
  function Sample(n: nat, draws: seq<Draw>, v: seq<Pos>, avoid: Pos): (r: Option<seq<Pos>>)
    requires |v| <= n && Layout(v, avoid)
    ensures r.Some? ==> |r.value| == n && Layout(r.value, avoid) && v <= r.value
    decreases |draws|
  {
    if n <= |v| then Some(v)
    else if |draws| == 0 then None
    else
      var p := RandPosn(draws[0]);
      if !CheckDuplicates(p, v) && p != avoid then
        LayoutAppend(v, p, avoid);
        Sample(n, draws[1..], v + [p], avoid)
      else
        Sample(n, draws[1..], v, avoid)
  }

  /** get_many_rand_posns_(w), where `avoid` is the value the hint button
      field holds when the sampler runs: one legal cell per letter of w. */
  function GetManyRandPosns(w: string, draws: seq<Draw>, avoid: Pos): (r: Option<seq<Pos>>)
    ensures r.Some? ==> |r.value| == |w| && Layout(r.value, avoid)
  {
    Sample(|w|, draws, [], avoid)
  }

  /** Every cell the stream hits. */
  function Cells(draws: seq<Draw>): (s: set<Pos>)
    decreases |draws|
  {
    if |draws| == 0 then {} else {RandPosn(draws[0])} + Cells(draws[1..])
  }

  /** The same filter run over the whole stream, without stopping. */
  function Accepted(draws: seq<Draw>, v: seq<Pos>, avoid: Pos): (r: seq<Pos>)
    requires Layout(v, avoid)
    ensures Layout(r, avoid) && v <= r
    decreases |draws|
  {
    if |draws| == 0 then v
    else
      var p := RandPosn(draws[0]);
      if p !in v && p != avoid then
        LayoutAppend(v, p, avoid);
        Accepted(draws[1..], v + [p], avoid)
      else
        Accepted(draws[1..], v, avoid)
  }

  /** The sampler stops at the first n cells the unbounded filter accepts. */
  lemma {:induction false} SampleIsPrefix(n: nat, draws: seq<Draw>, v: seq<Pos>, avoid: Pos)
    requires |v| <= n && Layout(v, avoid)
    ensures var a := Accepted(draws, v, avoid);
            Sample(n, draws, v, avoid) == if n <= |a| then Some(a[..n]) else None
    decreases |draws|
  {
    var a := Accepted(draws, v, avoid);
    if n <= |v| {
      assert a[..n] == v;
    } else if |draws| > 0 {
      var p := RandPosn(draws[0]);
      if p !in v && p != avoid {
        LayoutAppend(v, p, avoid);
        SampleIsPrefix(n, draws[1..], v + [p], avoid);
      } else {
        SampleIsPrefix(n, draws[1..], v, avoid);
      }
    }
  }

  /** The unbounded filter keeps exactly the drawn cells other than `avoid`. */
  lemma {:induction false} AcceptedElements(draws: seq<Draw>, v: seq<Pos>, avoid: Pos)
    requires Layout(v, avoid)
    ensures Elements(Accepted(draws, v, avoid)) == Elements(v) + (Cells(draws) - {avoid})
    decreases |draws|
  {
    if |draws| > 0 {
      var p := RandPosn(draws[0]);
      if p !in v && p != avoid {
        LayoutAppend(v, p, avoid);
        AcceptedElements(draws[1..], v + [p], avoid);
        assert Elements(v + [p]) == Elements(v) + {p};
      } else {
        AcceptedElements(draws[1..], v, avoid);
      }
    }
  }

  /** The generator succeeds exactly when the stream holds at least one
      distinct non-reserved cell per letter, and it only ever returns cells
      that were drawn. */
  lemma GeneratorSucceedsIff(w: string, draws: seq<Draw>, avoid: Pos)
    ensures GetManyRandPosns(w, draws, avoid).Some? <==> |w| <= |Cells(draws) - {avoid}|
    ensures GetManyRandPosns(w, draws, avoid).Some? ==>
              Elements(GetManyRandPosns(w, draws, avoid).value) <= Cells(draws) - {avoid}
  {
    var a := Accepted(draws, [], avoid);
    SampleIsPrefix(|w|, draws, [], avoid);
    AcceptedElements(draws, [], avoid);
    assert Elements([]) == {};
    DistinctCard(a);
    if |w| <= |a| {
      assert forall q :: q in a[..|w|] ==> q in a;
    }
  }

  /** A stream whose leading draws land on the cells `cs` produces exactly cs. */
  lemma {:induction false} SampleFollowsDraws(n: nat, draws: seq<Draw>, v: seq<Pos>, cs: seq<Pos>, avoid: Pos)
    requires |v| + |cs| == n && |cs| <= |draws|
    requires Layout(v + cs, avoid)
    requires forall i :: 0 <= i < |cs| ==> RandPosn(draws[i]) == cs[i]
    ensures Layout(v, avoid)
    ensures Sample(n, draws, v, avoid) == Some(v + cs)
    decreases |cs|
  {
    assert forall i :: 0 <= i < |v| ==> v[i] == (v + cs)[i];
    if |cs| == 0 {
      assert v + cs == v;
    } else {
      var p := RandPosn(draws[0]);
      assert p == (v + cs)[|v|];
      assert p !in v;
      assert (v + [p]) + cs[1..] == v + cs;
      forall i | 0 <= i < |cs[1..]|
        ensures RandPosn(draws[1..][i]) == cs[1..][i]
      {
        assert draws[1..][i] == draws[i + 1];
      }
      SampleFollowsDraws(n, draws[1..], v + [p], cs[1..], avoid);
    }
  }

  /** Raw draws that land on the cells cs, in order. */
  function DrawsFor(cs: seq<Pos>): (ds: seq<Draw>)
    requires forall i :: 0 <= i < |cs| ==> OnGrid(cs[i])
    ensures |ds| == |cs|
    ensures forall i :: 0 <= i < |cs| ==> RandPosn(ds[i]) == cs[i]
    decreases |cs|
  {
    if |cs| == 0 then []
    else
      assert OnGrid(cs[0]);
      [Draw(cs[0].x, cs[0].y)] + DrawsFor(cs[1..])
  }

  /** Every legal layout is a possible output of the generator. */
  lemma LayoutReachable(w: string, cs: seq<Pos>, avoid: Pos)
    requires |cs| == |w| && Layout(cs, avoid)
    ensures GetManyRandPosns(w, DrawsFor(cs), avoid) == Some(cs)
  {
    assert [] + cs == cs;
    SampleFollowsDraws(|w|, DrawsFor(cs), [], cs, avoid);
  }

  /** A word with more letters than free cells never gets a layout: the
      generator, which the source runs without a bound, can only fail. */
  lemma TooLongNeverPlaced(w: string, draws: seq<Draw>)
    ensures |w| > Capacity ==> GetManyRandPosns(w, draws, HintButton).None?
  {
    var r := GetManyRandPosns(w, draws, HintButton);
    if r.Some? {
      LayoutFits(r.value);
    }
  }
}
