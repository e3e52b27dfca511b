/** Properties of sequences of engine steps: solving a whole word, letting
    frames run, following a hint, and the engine's own test scenarios. */
module Play {
  import opened Board
  import opened Model

  /** Click the next letter until the round ends (the word is finished or the
      game-over cut empties it). */
  function Solve(g: Game, next: Reload): (r: Game)
    requires WellFormed(g) && |g.posns| > 0 && Feeds(g.bank, next)
    ensures r.bank == g.bank && WellFormed(r)
    ensures r.points >= g.points
    decreases |g.posns|
  {
    var g' := Click(g, g.posns[0], next);
    if |g.posns| == 1 || |g'.posns| == 0 then g' else Solve(g', next)
  }

  /** Solving a word of n letters without a mistake, while the game runs,
      earns 50 for each of the first n - 1 letters and 100 for the last, and
      then a fresh round from the bank is in play with a full timer. */
  lemma {:induction false} SolveScores(g: Game, next: Reload)
    requires WellFormed(g) && |g.posns| > 0 && Feeds(g.bank, next)
    requires g.points + LetterPoints * (|g.posns| - 1) + WordPoints < Goal
    ensures var r := Solve(g, next);
            && r.points == g.points + LetterPoints * (|g.posns| - 1) + WordPoints
            && r.time == Allotment && r.index < |g.bank| && r.word == g.bank[r.index]
    decreases |g.posns|
  {
    if |g.posns| > 1 {
      var g' := Click(g, g.posns[0], next);
      assert |g'.posns| == |g.posns| - 1 && g'.points == g.points + LetterPoints;
      SolveScores(g', next);
    }
  }

  /** k frames of the same length dt. */
  function Frames(g: Game, dt: real, k: nat, next: Reload): (r: Game)
    requires Feeds(g.bank, next)
    ensures r.bank == g.bank && r.points == g.points
    ensures r.hint == g.hint && r.isCorrect == g.isCorrect
    ensures WellFormed(g) ==> WellFormed(r)
    decreases k
  {
    if k == 0 then g else OnFrame(Frames(g, dt, k - 1, next), dt, next)
  }

  /** A frame shorter than one time unit takes exactly one tick off a
      positive timer, because the int timer keeps only the truncated result. */
  lemma OneTick(time: int, dt: real)
    requires time >= 1 && 0.0 < dt < 1.0
    ensures Trunc(time as real - dt) == time - 1
  {
  }

  /** One such frame on a timer of at least 2 neither reloads nor touches
      the round. */
  lemma FrameStep(g: Game, dt: real, next: Reload)
    requires Feeds(g.bank, next) && 0.0 < dt < 1.0 && g.time >= 2
    ensures var r := OnFrame(g, dt, next);
            r.time == g.time - 1 && r.word == g.word && r.posns == g.posns
  {
    OneTick(g.time, dt);
  }

  /** So the countdown counts frames, not seconds: after k such frames the
      timer has dropped by exactly k and the round is the same. */
  lemma {:induction false} FrameTicks(g: Game, dt: real, k: nat, next: Reload)
    requires Feeds(g.bank, next) && 0.0 < dt < 1.0 && k < g.time
    ensures var r := Frames(g, dt, k, next);
            r.time == g.time - k && r.word == g.word && r.posns == g.posns
  {
    if k > 0 {
      var h := Frames(g, dt, k - 1, next);
      FrameTicks(g, dt, k - 1, next);
      assert h.time >= 2 && h.bank == g.bank;
      FrameStep(h, dt, next);
      var r := OnFrame(h, dt, next);
      assert Frames(g, dt, k, next) == r;
      assert r.time == g.time - k;
    }
  }

  /** and the frame that uses up the last tick starts a new round, unless the
      game is over: a round lasts exactly its 960 frames whatever the frame
      rate, as long as frames are shorter than a second. */
  lemma RoundTimesOut(g: Game, dt: real, next: Reload)
    requires Feeds(g.bank, next) && 0.0 < dt < 1.0 && g.time >= 1 && g.points < Goal
    ensures var r := Frames(g, dt, g.time as nat, next);
            r.time == Allotment && r.index < |g.bank| && r.word == g.bank[r.index]
            && |r.posns| == |r.word| && Layout(r.posns, HintButton)
  {
    FrameTicks(g, dt, g.time - 1, next);
    OneTick(1, dt);
  }

  /** Clicking the hint button and then the highlighted cell is always a
      correct click: the hint shows the next letter and costs nothing. */
  lemma FollowingHintScores(g: Game, next: Reload)
    requires WellFormed(g) && |g.posns| > 0 && Feeds(g.bank, next) && g.points < Goal
    ensures var h := Click(g, HintButton, next);
            && h.hint && h.hintPosn == g.posns[0] && h.points == g.points
            && h.word == g.word && h.posns == g.posns
            && Click(h, h.hintPosn, next).isCorrect
            && Click(h, h.hintPosn, next).points > g.points
            && !Click(h, h.hintPosn, next).hint
  {
  }

  /** The word "cats" solved letter by letter: 50, 100, 150, then 250 and a
      new word from the bank. */
  lemma CatsScenario(next: Reload)
    requires Feeds(["kitchen", "spoon", "sink"], next)
    ensures var g0 := Game(["kitchen", "spoon", "sink"], 0, "cats",
                           [Pos(1, 4), Pos(3, 7), Pos(4, 4), Pos(2, 5)],
                           0, Allotment, false, Origin, true, Origin, 0.0);
            var g1 := Click(g0, Pos(1, 4), next);
            var g2 := Click(g1, Pos(3, 7), next);
            var g3 := Click(g2, Pos(4, 4), next);
            var g4 := Click(g3, Pos(2, 5), next);
            && g1.word == "ats" && |g1.posns| == 3 && g1.points == 50
            && g2.word == "ts" && |g2.posns| == 2 && g2.points == 100
            && g3.word == "s" && |g3.posns| == 1 && g3.points == 150
            && g4.points == 250 && g4.word in g0.bank && |g4.posns| == |g4.word|
  {
  }

  /** The states of the engine's first test: the word "apple" before any
      click, after its first letter is solved, and after a later tile was
      clicked by mistake. */
  const AppleBank: seq<string> := ["apple", "kitchen"]
  const AppleStart: Game :=
    Game(AppleBank, 0, "apple", [Pos(1, 4), Pos(3, 7), Pos(4, 4), Pos(8, 9), Pos(2, 5)],
         0, Allotment, false, Origin, true, Origin, 0.0)
  const AppleSolvedA: Game :=
    Game(AppleBank, 0, "pple", [Pos(3, 7), Pos(4, 4), Pos(8, 9), Pos(2, 5)],
         50, Allotment, false, Origin, true, Origin, 0.0)
  const AppleFlagged: Game :=
    Game(AppleBank, 0, "pple", [Pos(3, 7), Pos(4, 4), Pos(8, 9), Pos(2, 5)],
         25, Allotment, false, Origin, false, Pos(2, 5), 0.0)

  /** The "apple" scenario: a correct click (+50, head removed), a click on
      a later letter (-25, tile flagged, round kept), and a click on an
      empty cell (nothing but the correctness flag changes). */
  lemma AppleScenario(next: Reload)
    requires Feeds(AppleBank, next)
    ensures Click(AppleStart, Pos(1, 4), next) == AppleSolvedA
    ensures Click(AppleSolvedA, Pos(2, 5), next) == AppleFlagged
    ensures Click(AppleFlagged, Pos(3, 2), next) == AppleFlagged.(isCorrect := true)
  {
    assert CheckHint(AppleStart, Pos(1, 4)) == AppleStart;
    assert NextLetter(AppleStart, next) == AppleSolvedA;
    assert CheckHint(AppleSolvedA, Pos(2, 5)) == AppleSolvedA;
    assert Count(AppleSolvedA.posns, Pos(2, 5)) > 0;
    assert WrongLetter(AppleSolvedA, Pos(2, 5)) == AppleFlagged;
    var flagged := AppleFlagged.(isCorrect := true);
    assert CheckHint(flagged, Pos(3, 2)) == flagged;
    assert Count(flagged.posns, Pos(3, 2)) == 0;
  }

  /** The timer scenario: letting the whole remaining time pass reloads a
      word with a full timer, and 60 units later the timer reads 900. */
  lemma TimerScenario(g: Game, next: Reload)
    requires WellFormed(g) && Feeds(g.bank, next) && g.points < Goal
    ensures var r := OnFrame(g, g.time as real, next);
            && r.time == Allotment && r.word in g.bank && |r.posns| == |r.word|
            && OnFrame(r, 60.0, next).time == 900
  {
  }

  /** The game-over scenario: at 2500 points the next letter click clears the
      board and no new round follows. */
  lemma GameOverScenario(g: Game, next: Reload)
    requires WellFormed(g) && |g.posns| > 0 && Feeds(g.bank, next) && g.points == Goal
    ensures var r := Click(g, g.posns[0], next);
            r.word == "" && r.posns == [] && r.points == Goal && r.time == g.time
  {
  }
}
