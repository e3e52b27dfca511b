/** The game-state engine: one immutable record per game state and one pure
    transition per engine operation. Random choices arrive as a `Reload`
    value; elapsed time arrives as an exact real number of seconds (or ticks,
    as the engine's own tests use it). */
module Model {
  import opened Wrappers
  import opened Board
  import opened Positions

  /** Points at which the game is over. */
  const Goal: int := 2500

  /** Timer value every round starts from: 960 ticks, 16 s at 60 frames/s. */
  const Allotment: int := 960

  /** How long a wrong tile stays flagged. */
  const FeedbackWindow: real := 2.0

  const LetterPoints: int := 50
  const WordPoints: int := 100
  const Penalty: int := 25

  /** The engine state. `bank` is the dictionary, `index` the bank slot the
      current word came from, `posns[i]` the cell where letter `word[i]` must
      be clicked, `hintPosn` the cell the hint highlights, `wrongPosn` and
      `elapsed` the wrong-tile highlight and its age. */
  datatype Game = Game(
    bank: seq<string>,
    index: nat,
    word: string,
    posns: seq<Pos>,
    points: int,
    time: int,
    hint: bool,
    hintPosn: Pos,
    isCorrect: bool,
    wrongPosn: Pos,
    elapsed: real)

  /** The random choices one new round consumes: `pick` is the rand() result
      that selects the word, `draws` the stream the position sampler reads. */
  datatype Reload = Reload(pick: nat, draws: seq<Draw>)

  /** The state invariant: a non-empty dictionary, one cell per remaining
      letter, and a legal layout that keeps clear of the hint button. */
  predicate WellFormed(g: Game) {
    && |g.bank| > 0
    && |g.word| == |g.posns|
    && Layout(g.posns, HintButton)
  }

  /** The remaining word is what is left of the bank word the round started
      with: a suffix of it (empty once the game-over cut clears it). Holds in
      every state the engine reaches; the engine's tests leave it on purpose
      by setting the word by hand. */
  predicate FromBank(g: Game) {
    && g.index < |g.bank|
    && |g.word| <= |g.bank[g.index]|
    && g.word == g.bank[g.index][|g.bank[g.index]| - |g.word|..]
  }

  /** Solving the first letter keeps the word a suffix of its bank word. */
  lemma FromBankDropFirst(g: Game)
    ensures FromBank(g) ==> FromBank(g.(word := DropFirst(g.word)))
  {
  }

  /** The word `rand() % word_bank_.size()` selects. */
  function Chosen(bank: seq<string>, pick: nat): string
    requires |bank| > 0
  {
    bank[pick % |bank|]
  }

  /** The random source can start a round: the bank is non-empty (the source
      divides by its size) and the stream holds enough acceptable draws for
      the chosen word (the source keeps drawing until it has them). */
  predicate Feeds(bank: seq<string>, next: Reload) {
    && |bank| > 0
    && GetManyRandPosns(Chosen(bank, next.pick), next.draws, HintButton).Some?
  }

  /** The round fields are unchanged. */
  predicate SameRound(a: Game, b: Game) {
    a.index == b.index && a.word == b.word && a.posns == b.posns && a.time == b.time
  }

  /** The hint and wrong-tile fields are unchanged. */
  predicate SameFeedback(a: Game, b: Game) {
    && a.hint == b.hint && a.hintPosn == b.hintPosn
    && a.isCorrect == b.isCorrect && a.wrongPosn == b.wrongPosn && a.elapsed == b.elapsed
  }

  /** Truncation toward zero, the conversion a double undergoes when it is
      stored back into an int. */
  function Trunc(x: real): (r: int)
    ensures x >= 0.0 ==> r as real <= x < r as real + 1.0
    ensures x < 0.0 ==> r as real - 1.0 < x <= r as real
  {
    if x >= 0.0 then x.Floor else -((-x).Floor)
  }

  /** load_new_word_: a fresh round with a word from the bank, a fresh legal
      layout for it, and a full timer; score and feedback are untouched. */
  function LoadNewWord(g: Game, next: Reload): (r: Game)
    requires Feeds(g.bank, next)
    ensures r.time == Allotment
    ensures r.index == next.pick % |g.bank| && r.word == g.bank[r.index]
    ensures GetManyRandPosns(r.word, next.draws, HintButton) == Some(r.posns)
    ensures |r.posns| == |r.word| && Layout(r.posns, HintButton)
    ensures WellFormed(r) && FromBank(r)
    ensures r.bank == g.bank && r.points == g.points && SameFeedback(r, g)
  {
    var i := next.pick % |g.bank|;
    var w := g.bank[i];
    g.(time := Allotment, index := i, word := w,
       posns := GetManyRandPosns(w, next.draws, HintButton).value)
  }

  /** update_points_, run after the clicked tile is already removed: while the
      game runs a correct click earns 50, or 100 when it finished the word, and
      a wrong click costs 25; once the goal is reached a scoring event instead
      clears the round and leaves the score alone. */
  function UpdatePoints(g: Game, isCorrect: bool): (r: Game)
    ensures g.points < Goal ==> r.word == g.word && r.posns == g.posns
    ensures g.points < Goal && isCorrect && |g.posns| == 0 ==> r.points == g.points + WordPoints
    ensures g.points < Goal && isCorrect && |g.posns| > 0 ==> r.points == g.points + LetterPoints
    ensures g.points < Goal && !isCorrect ==> r.points == g.points - Penalty
    ensures g.points >= Goal ==> r.points == g.points && r.word == [] && r.posns == []
    ensures r.bank == g.bank && r.index == g.index && r.time == g.time && SameFeedback(r, g)
    ensures WellFormed(g) ==> WellFormed(r)
    ensures FromBank(g) ==> FromBank(r)
  {
    if g.points < Goal then
      if isCorrect && |g.posns| == 0 then g.(points := g.points + WordPoints)
      else if isCorrect && |g.posns| > 0 then g.(points := g.points + LetterPoints)
      else g.(points := g.points - Penalty)
    else
      g.(posns := [], word := [])
  }

  /** check_hint_: the hint is one-shot; it is on after a click exactly when
      that click hit the hint button, and then it points at the next letter. */
  function CheckHint(g: Game, p: Pos): (r: Game)
    requires p == HintButton ==> |g.posns| > 0
    ensures r.hint <==> p == HintButton
    ensures p == HintButton ==> r.hintPosn == g.posns[0]
    ensures p != HintButton ==> r.hintPosn == g.hintPosn
    ensures r == g.(hint := r.hint, hintPosn := r.hintPosn)
  {
    var g1 := if g.hint then g.(hint := false) else g;
    if p == HintButton then g1.(hint := true, hintPosn := g1.posns[0]) else g1
  }

  /** erase(0, 1) on a std::string: putting the erased letter back in front
      restores the word, and the empty string stays empty. */
  function DropFirst(w: string): (r: string)
    ensures |w| > 0 ==> [w[0]] + r == w
    ensures |w| == 0 ==> r == []
  {
    if |w| > 0 then w[1..] else w
  }

  /** The correct-letter branch of click_letter: the first tile is solved,
      scored, and a finished word is replaced while the game runs. */
  function NextLetter(g: Game, next: Reload): (r: Game)
    requires |g.posns| > 0 && Feeds(g.bank, next)
    ensures r.bank == g.bank && r.hint == g.hint && r.hintPosn == g.hintPosn
    ensures r.isCorrect == g.isCorrect && r.wrongPosn == g.wrongPosn && r.elapsed == g.elapsed
    ensures WellFormed(g) ==> WellFormed(r)
    ensures FromBank(g) ==> FromBank(r)
    ensures g.points < Goal && |g.posns| > 1 && WellFormed(g) ==>
              && r.points == g.points + LetterPoints
              && r.word == g.word[1..] && r.posns == g.posns[1..]
              && r.index == g.index && r.time == g.time
    ensures g.points < Goal && |g.posns| == 1 ==> r.points == g.points + WordPoints
    ensures |g.posns| == 1 && g.points + WordPoints < Goal ==>
              && r.time == Allotment && r.index < |g.bank| && r.word == g.bank[r.index]
              && |r.posns| == |r.word| && Layout(r.posns, HintButton)
    ensures |g.posns| == 1 && g.points < Goal <= g.points + WordPoints ==> r.posns == []
    ensures g.points >= Goal ==> r.points == g.points && r.word == [] && r.posns == []
    ensures !(|g.posns| == 1 && g.points + WordPoints < Goal) ==>
              r.time == g.time && r.index == g.index
  {
    FromBankDropFirst(g.(posns := g.posns[1..]));
    LayoutTail(g.posns, HintButton);
    var g2 := UpdatePoints(g.(posns := g.posns[1..], word := DropFirst(g.word)), true);
    if |g2.posns| == 0 && g2.points < Goal then LoadNewWord(g2, next) else g2
  }

  /** The wrong-letter branch of click_letter: a later tile was hit. */
  function WrongLetter(g: Game, p: Pos): (r: Game)
    ensures r.bank == g.bank && r.hint == g.hint && r.hintPosn == g.hintPosn
    ensures r.elapsed == g.elapsed && r.index == g.index && r.time == g.time
    ensures !r.isCorrect && r.wrongPosn == p
    ensures g.points < Goal ==> r.points == g.points - Penalty && SameRound(r, g)
    ensures g.points >= Goal ==> r.points == g.points && r.word == [] && r.posns == []
    ensures WellFormed(g) ==> WellFormed(r)
    ensures FromBank(g) ==> FromBank(r)
  {
    UpdatePoints(g.(isCorrect := false), false).(wrongPosn := p)
  }

  /** click_letter: resolve one click at board cell p. Every click runs the
      hint check; the invariants survive; the wrong-tile timer is never
      restarted; and only a click that finishes the word below the goal
      starts a new round. The branch lemmas below say what each kind of
      click does. */
  function Click(g: Game, p: Pos, next: Reload): (r: Game)
    requires |g.posns| > 0
    requires Feeds(g.bank, next)
    ensures r.bank == g.bank
    ensures r.elapsed == g.elapsed
    ensures r.hint <==> p == HintButton
    ensures p == HintButton ==> r.hintPosn == g.posns[0]
    ensures p != HintButton ==> r.hintPosn == g.hintPosn
    ensures WellFormed(g) ==> WellFormed(r)
    ensures FromBank(g) ==> FromBank(r)
    ensures !(p == g.posns[0] && |g.posns| == 1 && g.points + WordPoints < Goal) ==>
              r.time == g.time && r.index == g.index
  {
    var g1 := CheckHint(g.(isCorrect := true), p);
    assert g1.bank == g.bank && g1.index == g.index && g1.word == g.word && g1.posns == g.posns;
    assert g1.points == g.points && g1.time == g.time && g1.elapsed == g.elapsed;
    if p == g1.posns[0] then NextLetter(g1, next)
    else if Count(g1.posns, p) > 0 then WrongLetter(g1, p)
    else g1
  }

  /** Clicking the next letter: a correct click that removes exactly the
      head of word and positions and scores 50, or 100 when it finishes the
      word, after which a new round starts unless the goal is reached. */
  lemma ClickNextLetter(g: Game, next: Reload)
    requires |g.posns| > 0 && Feeds(g.bank, next)
    ensures var r := Click(g, g.posns[0], next);
            && r.isCorrect && r.wrongPosn == g.wrongPosn
            && (g.points < Goal && |g.posns| > 1 && WellFormed(g) ==>
                  && r.points == g.points + LetterPoints
                  && r.word == g.word[1..] && r.posns == g.posns[1..]
                  && r.index == g.index && r.time == g.time)
            && (g.points < Goal && |g.posns| == 1 ==> r.points == g.points + WordPoints)
            && (|g.posns| == 1 && g.points + WordPoints < Goal ==>
                  && r.time == Allotment && r.index < |g.bank| && r.word == g.bank[r.index]
                  && |r.posns| == |r.word| && Layout(r.posns, HintButton))
            && (|g.posns| == 1 && g.points < Goal <= g.points + WordPoints ==>
                  r.posns == [] && r.time == g.time)
  {
  }

  /** A click is wrong exactly when it hits a remaining tile other than the
      first; it then flags that tile and, while the game runs, costs 25 and
      leaves the round as it was. */
  lemma ClickLaterLetter(g: Game, p: Pos, next: Reload)
    requires |g.posns| > 0 && Feeds(g.bank, next)
    ensures var r := Click(g, p, next);
            && (!r.isCorrect <==> p != g.posns[0] && p in g.posns[1..])
            && (p != g.posns[0] && p in g.posns ==> !r.isCorrect && r.wrongPosn == p)
            && (p != g.posns[0] && p in g.posns && g.points < Goal ==>
                  r.points == g.points - Penalty && SameRound(r, g))
  {
  }

  /** Once the goal is reached, a scoring click keeps the score and clears
      the round, and no new round follows. */
  lemma ClickAfterGoal(g: Game, p: Pos, next: Reload)
    requires |g.posns| > 0 && Feeds(g.bank, next)
    requires p in g.posns && g.points >= Goal
    ensures var r := Click(g, p, next);
            r.points == g.points && r.word == [] && r.posns == [] && r.time == g.time
  {
  }

  /** A click on no remaining tile changes neither round nor score; in
      particular a hint-button click never advances a legal round. */
  lemma ClickElsewhere(g: Game, p: Pos, next: Reload)
    requires |g.posns| > 0 && Feeds(g.bank, next)
    ensures var r := Click(g, p, next);
            && (p !in g.posns ==>
                  r.isCorrect && r.points == g.points && r.wrongPosn == g.wrongPosn
                  && SameRound(r, g))
            && (WellFormed(g) && p == HintButton ==> r.points == g.points && SameRound(r, g))
  {
  }

  /** on_frame(dt): run the countdown (the int timer keeps the truncated
      difference), start a new round on timeout unless the game is over, and
      age the wrong-tile highlight, clearing it after the feedback window. */
  function OnFrame(g: Game, dt: real, next: Reload): (r: Game)
    requires Feeds(g.bank, next)
    ensures r.bank == g.bank && r.points == g.points
    ensures r.hint == g.hint && r.hintPosn == g.hintPosn && r.isCorrect == g.isCorrect
    ensures WellFormed(g) ==> WellFormed(r)
    ensures FromBank(g) ==> FromBank(r)
    // the countdown
    ensures Trunc(g.time as real - dt) <= 0 && g.points < Goal ==>
              && r.time == Allotment && r.index < |g.bank| && r.word == g.bank[r.index]
              && |r.posns| == |r.word| && Layout(r.posns, HintButton)
    ensures !(Trunc(g.time as real - dt) <= 0 && g.points < Goal) ==>
              && r.time == Trunc(g.time as real - dt)
              && r.index == g.index && r.word == g.word && r.posns == g.posns
    // the wrong-tile highlight
    ensures g.isCorrect ==> r.wrongPosn == g.wrongPosn && r.elapsed == g.elapsed
    ensures !g.isCorrect && g.elapsed + dt >= FeedbackWindow ==>
              r.wrongPosn == Origin && r.elapsed == 0.0
    ensures !g.isCorrect && g.elapsed + dt < FeedbackWindow ==>
              r.wrongPosn == g.wrongPosn && r.elapsed == g.elapsed + dt
  {
    var t := Trunc(g.time as real - dt);
    var g1 := g.(time := t);
    var g2 := if t <= 0 && g.points < Goal then LoadNewWord(g1, next) else g1;
    if !g2.isCorrect then
      var e := g2.elapsed + dt;
      if e >= FeedbackWindow then g2.(wrongPosn := Origin, elapsed := 0.0)
      else g2.(elapsed := e)
    else
      g2
  }

  /** The Model(dictionary) constructor with the hint button already in place:
      a first round drawn from the bank, zero points, a full timer, no hint
      and no highlighted tile. */
  function Construct(bank: seq<string>, next: Reload): (g: Game)
    requires Feeds(bank, next)
    ensures WellFormed(g) && FromBank(g)
    ensures g.bank == bank && g.index < |bank| && g.word == bank[g.index]
    ensures g.points == 0 && g.time == Allotment
    ensures !g.hint && g.hintPosn == Origin
    ensures g.isCorrect && g.wrongPosn == Origin && g.elapsed == 0.0
  {
    var i := next.pick % |bank|;
    var w := bank[i];
    Game(bank, i, w, GetManyRandPosns(w, next.draws, HintButton).value,
         0, Allotment, false, Origin, true, Origin, 0.0)
  }

  /** The Model(dictionary) constructor as written: its member initialisers
      run in declaration order, so the sampler runs before the hint button
      field is set, and filters against whatever value `stale` that field
      holds at that moment. */
  function ConstructAsWritten(bank: seq<string>, next: Reload, stale: Pos): (g: Game)
    requires |bank| > 0
    requires GetManyRandPosns(Chosen(bank, next.pick), next.draws, stale).Some?
    ensures g.bank == bank && g.index < |bank| && g.word == bank[g.index]
    ensures |g.posns| == |g.word| && Layout(g.posns, stale)
    ensures stale == HintButton ==> g == Construct(bank, next)
  {
    var i := next.pick % |bank|;
    var w := bank[i];
    Game(bank, i, w, GetManyRandPosns(w, next.draws, stale).value,
         0, Allotment, false, Origin, true, Origin, 0.0)
  }

  /** With any stale value other than the hint button's own cell, the first
      round can put a letter on the hint button. */
  lemma ConstructAsWrittenCoversHintButton()
    ensures var bank := ["a"];
            var next := Reload(0, [Draw(14, 10)]);
            && GetManyRandPosns(Chosen(bank, next.pick), next.draws, Origin).Some?
            && ConstructAsWritten(bank, next, Origin).posns == [HintButton]
            && !WellFormed(ConstructAsWritten(bank, next, Origin))
  {
    var next := Reload(0, [Draw(14, 10)]);
    assert Chosen(["a"], 0) == "a";
    SampleFollowsDraws(1, next.draws, [], [HintButton], Origin);
    assert [] + [HintButton] == [HintButton];
  }
}
