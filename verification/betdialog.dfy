/**
 The bet dialog of the game screen (GameScreen.js): choosing an option opens
 the dialog, typing fills the bet field, submitting sends the vote when the
 stakes are fixed or the bet is positive, and closing clears the dialog and
 leaves the screen once a vote has been sent.

 The bet field is a number input, so its text is either empty or a valid
 floating-point numeral: an optional minus sign, decimal digits with an
 optional fraction, and an optional exponent. `bet > 0` compares the numeral's
 value with zero; `parseInt(bet, 10)` reads the sign and the digits before the
 point or exponent, and is NaN when there are none.

 HandleSubmit keeps the source's guard; HandleSubmitChecked admits a bet only
 when the amount that is actually sent is a positive integer. The dialog's
 transition function Step takes the guard as a parameter, so the same event
 sequences can be run under either.
 */
module BetDialog {
  import opened Wrappers
  import opened Digits

  /** The text of the bet field: empty, or the numeral
      [-] whole [. fraction] [e exponent]. A number input never holds a
      numeral without digits on either side of the point. */
  datatype BetField = Blank | Numeral(negative: bool, whole: seq<Digit>, fraction: seq<Digit>, exponent: int)

  /** An amount as JavaScript computes it: an integer, or NaN. */
  datatype Amount = Int(n: int) | NaN

  const FIXED_STAKES: string := "Fixed Stakes"
  const FIXED_AMOUNT: int := 100

  /** 10^e for any integer exponent. */
  function Pow10Real(e: int): (r: real)
    ensures r > 0.0
    decreases if e < 0 then -e else e
  {
    if e == 0 then 1.0 else if e > 0 then 10.0 * Pow10Real(e - 1) else Pow10Real(e + 1) / 10.0
  }

  /** The number the field converts to: 0 for the empty field, and
      sign * whole.fraction * 10^exponent for a numeral. */
  function NumeralValue(f: BetField): real
  {
    if f.Blank? then 0.0
    else
      (if f.negative then -1.0 else 1.0)
      * (DigitsValue(f.whole + f.fraction) as real)
      * Pow10Real(f.exponent - |f.fraction|)
  }

  /** `bet > 0`, decided by the minus sign and the digits alone (see
      BetPositiveMeansAboveZero). */
  predicate BetPositive(f: BetField)
  {
    f.Numeral? && !f.negative && DigitsValue(f.whole + f.fraction) > 0
  }

  /** `parseInt(bet, 10)`: the signed value of the digits before the point. */
  function ParseInt(f: BetField): (a: Amount)
    ensures a.Int? <==> f.Numeral? && |f.whole| > 0
    ensures a.Int? ==> a.n == (if f.negative then -1 else 1) * DigitsValue(f.whole)
  {
    if f.Blank? || |f.whole| == 0 then NaN
    else if f.negative then Int(0 - DigitsValue(f.whole))
    else Int(DigitsValue(f.whole))
  }

  /** The amount the vote mutation carries. */
  function VoteAmount(stakes: string, bet: BetField): (a: Amount)
    ensures stakes == FIXED_STAKES ==> a == Int(FIXED_AMOUNT)
    ensures stakes != FIXED_STAKES ==> a == ParseInt(bet)
  {
    if stakes == FIXED_STAKES then Int(FIXED_AMOUNT) else ParseInt(bet)
  }

  datatype VoteInput = VoteInput(gameId: string, optionId: string, amount: Amount)

  /** The screen's state fields. */
  datatype DialogState = DialogState(
    choice: string,
    playDialog: bool,
    bet: BetField,
    loading: bool,
    querySent: bool,
    querySuccess: bool,
    selected: int,
    hasUserVoted: bool,
    isGameOver: bool,
    errorMsg: bool,
    called: bool)

  /** The screen's initial state; `called` is the vote mutation's own flag,
      false until the mutation is first run. */
  const Initial: DialogState := DialogState("", false, Blank, false, false, false, 1, false, false, false, false)

  /** The game the screen shows: its id and its stakes kind. */
  datatype Game = Game(id: string, stakes: string)

  /** handleChoice: remember the option and open the dialog. */
  function HandleChoice(st: DialogState, choice: string): (r: DialogState)
    ensures r.choice == choice && r.playDialog
    ensures r.(choice := st.choice, playDialog := st.playDialog) == st
  {
    st.(choice := choice, playDialog := true)
  }

  /** handleChange('bet'): the field takes the typed text. */
  function HandleBetChange(st: DialogState, bet: BetField): (r: DialogState)
    ensures r.bet == bet
    ensures r.(bet := st.bet) == st
  {
    st.(bet := bet)
  }

  /** handleClose: close the dialog and clear the bet; the second component
      says whether the screen navigates back to the game list. */
  function HandleClose(st: DialogState): (r: (DialogState, bool))
    ensures !r.0.playDialog && r.0.bet == Blank
    ensures r.0.(playDialog := st.playDialog, bet := st.bet) == st
    ensures r.1 <==> st.querySent
  {
    (st.(playDialog := false, bet := Blank), st.querySent)
  }

  /** The vote the mutation sends from the current state. */
  function MakeVote(game: Game, st: DialogState): (v: VoteInput)
    ensures v.gameId == game.id && v.optionId == st.choice
    ensures game.stakes == FIXED_STAKES ==> v.amount == Int(FIXED_AMOUNT)
    ensures game.stakes != FIXED_STAKES ==> v.amount == ParseInt(st.bet)
  {
    VoteInput(game.id, st.choice, VoteAmount(game.stakes, st.bet))
  }

  /** The source's admission guard. */
  predicate Admits(stakes: string, bet: BetField)
  {
    stakes == FIXED_STAKES || BetPositive(bet)
  }

  /** The guard that admits a bet only when the amount sent is a positive integer. */
  predicate AdmitsChecked(stakes: string, bet: BetField)
  {
    stakes == FIXED_STAKES || (ParseInt(bet).Int? && ParseInt(bet).n > 0)
  }

  /** handleSubmit as written: when the guard admits the bet, run the vote
      mutation (which marks it called) and mark the vote sent; otherwise raise
      the error message. */
  function HandleSubmit(st: DialogState, game: Game): (r: (DialogState, Option<VoteInput>))
    ensures r.1.Some? <==> Admits(game.stakes, st.bet)
    ensures r.1.Some? ==> r.1.value == MakeVote(game, st) && r.0 == st.(querySent := true, called := true)
    ensures r.1.None? ==> r.0 == st.(errorMsg := true)
  {
    if Admits(game.stakes, st.bet) then (st.(querySent := true, called := true), Some(MakeVote(game, st)))
    else (st.(errorMsg := true), None)
  }

  /** handleSubmit with the corrected guard. */
  function HandleSubmitChecked(st: DialogState, game: Game): (r: (DialogState, Option<VoteInput>))
    ensures r.1.Some? <==> AdmitsChecked(game.stakes, st.bet)
    ensures r.1.Some? ==> r.1.value == MakeVote(game, st) && r.0 == st.(querySent := true, called := true)
    ensures r.1.Some? ==> r.1.value.amount.Int? && r.1.value.amount.n > 0
    ensures r.1.None? ==> r.0 == st.(errorMsg := true)
  {
    if AdmitsChecked(game.stakes, st.bet) then (st.(querySent := true, called := true), Some(MakeVote(game, st)))
    else (st.(errorMsg := true), None)
  }

  // ---------------------------------------------------------------- the dialog as a machine

  datatype Event = Choose(option: string) | Type(bet: BetField) | Submit | Close

  /** Which submit guard the dialog runs: the source's, or the corrected one. */
  datatype Guard = AsWritten | Checked

  /** What one event produces: the next state, the vote sent if any, and
      whether the screen navigates away. */
  datatype Outcome = Outcome(state: DialogState, sent: Option<VoteInput>, leaves: bool)

  /** Whether the screen offers the event in this state. The option cards are
      behind the open dialog; the bet field and the submit button are shown only
      inside the open dialog and only until the vote mutation has been called
      (the field only when the stakes are not fixed); the dialog can only be
      closed while it is open. */
  predicate Offered(st: DialogState, game: Game, e: Event)
  {
    match e
    case Choose(_) => !st.playDialog
    case Type(_) => st.playDialog && !st.called && game.stakes != FIXED_STAKES
    case Submit => st.playDialog && !st.called
    case Close => st.playDialog
  }

  /** One event: an offered event runs its handler, and an event the screen
      does not offer changes nothing. */
  function Step(st: DialogState, game: Game, guard: Guard, e: Event): (o: Outcome)
    ensures o.state.querySent == (st.querySent || o.sent.Some?)
    ensures o.state.called == (st.called || o.sent.Some?)
    ensures o.sent.Some? ==> e == Submit && st.playDialog && !st.called
    ensures o.leaves ==> e == Close && st.querySent
    ensures !Offered(st, game, e) ==> o == Outcome(st, None, false)
    ensures Offered(st, game, e) && e.Choose? ==> o == Outcome(HandleChoice(st, e.option), None, false)
    ensures Offered(st, game, e) && e.Type? ==> o == Outcome(HandleBetChange(st, e.bet), None, false)
    ensures Offered(st, game, e) && e == Submit ==>
              (o.state, o.sent) == (if guard == Checked then HandleSubmitChecked(st, game) else HandleSubmit(st, game))
              && !o.leaves
    ensures Offered(st, game, e) && e == Close ==> (o.state, o.leaves) == HandleClose(st) && o.sent.None?
  {
    match e
    case Choose(option) =>
      if st.playDialog then Outcome(st, None, false)
      else Outcome(HandleChoice(st, option), None, false)
    case Type(bet) =>
      if st.playDialog && !st.called && game.stakes != FIXED_STAKES then
        Outcome(HandleBetChange(st, bet), None, false)
      else Outcome(st, None, false)
    case Submit =>
      if st.playDialog && !st.called then
        var (next, sent) := if guard == Checked then HandleSubmitChecked(st, game) else HandleSubmit(st, game);
        Outcome(next, sent, false)
      else Outcome(st, None, false)
    case Close =>
      if st.playDialog then
        var (next, leaves) := HandleClose(st);
        Outcome(next, None, leaves)
      else Outcome(st, None, false)
  }

  /** The state after a run of events, the votes sent in order, and whether
      the screen navigated away; once it has, later events do not reach it. */
  datatype Trace = Trace(state: DialogState, sent: seq<VoteInput>, left: bool)

  function Run(st: DialogState, game: Game, guard: Guard, events: seq<Event>): Trace
  {
    if |events| == 0 then Trace(st, [], false)
    else
      var t := Run(st, game, guard, events[..|events| - 1]);
      if t.left then t
      else
        var o := Step(t.state, game, guard, events[|events| - 1]);
        Trace(o.state, t.sent + (if o.sent.Some? then [o.sent.value] else []), o.leaves)
  }

  // ---------------------------------------------------------------- properties

  /** Starting from the initial state, with either guard: querySent and the
      mutation's called flag hold exactly when a vote has been sent, at most one
      vote is ever sent, and the screen only navigates away after it. */
  lemma {:induction false} QuerySentIffVoted(game: Game, guard: Guard, events: seq<Event>)
    ensures var t := Run(Initial, game, guard, events);
            (t.state.querySent <==> |t.sent| > 0) &&
            (t.state.called <==> |t.sent| > 0) &&
            |t.sent| <= 1 &&
            (t.left ==> |t.sent| > 0)
  {
    if |events| > 0 {
      QuerySentIffVoted(game, guard, events[..|events| - 1]);
    }
  }

  /** The votes are for the shown game and carry 100 under fixed stakes. */
  predicate VotesForGame(sent: seq<VoteInput>, game: Game)
  {
    forall k :: 0 <= k < |sent| ==>
      sent[k].gameId == game.id &&
      (game.stakes == FIXED_STAKES ==> sent[k].amount == Int(FIXED_AMOUNT))
  }

  /** The votes carry a positive integer amount. */
  predicate PositiveAmounts(sent: seq<VoteInput>)
  {
    forall k :: 0 <= k < |sent| ==> sent[k].amount.Int? && sent[k].amount.n > 0
  }

  /** With either guard, every vote sent is for the shown game and carries 100
      under fixed stakes. */
  lemma {:induction false} SentVotesForGame(st: DialogState, game: Game, guard: Guard, events: seq<Event>)
    ensures VotesForGame(Run(st, game, guard, events).sent, game)
  {
    if |events| > 0 {
      var t := Run(st, game, guard, events[..|events| - 1]);
      SentVotesForGame(st, game, guard, events[..|events| - 1]);
      if !t.left {
        var o := Step(t.state, game, guard, events[|events| - 1]);
        if o.sent.Some? {
          assert VotesForGame([o.sent.value], game);
          assert Run(st, game, guard, events).sent == t.sent + [o.sent.value];
        }
      }
    }
  }

  /** With the corrected guard, every vote sent also carries a positive integer. */
  lemma {:induction false} SentAmountsValid(st: DialogState, game: Game, events: seq<Event>)
    ensures VotesForGame(Run(st, game, Checked, events).sent, game)
    ensures PositiveAmounts(Run(st, game, Checked, events).sent)
  {
    SentVotesForGame(st, game, Checked, events);
    if |events| > 0 {
      var t := Run(st, game, Checked, events[..|events| - 1]);
      SentAmountsValid(st, game, events[..|events| - 1]);
      if !t.left {
        var o := Step(t.state, game, Checked, events[|events| - 1]);
        if o.sent.Some? {
          assert PositiveAmounts([o.sent.value]);
          assert Run(st, game, Checked, events).sent == t.sent + [o.sent.value];
        }
      }
    }
  }

  /** Under fixed stakes, with either guard, choosing an option and submitting
      sends exactly one vote: for the shown game and option, staking 100. */
  lemma FixedStakesVoteSent(game: Game, guard: Guard, option: string)
    requires game.stakes == FIXED_STAKES
    ensures Run(Initial, game, guard, [Choose(option), Submit]).sent
         == [VoteInput(game.id, option, Int(FIXED_AMOUNT))]
  {
    var e1, e2 := [Choose(option)], [Choose(option), Submit];
    assert e1[..0] == [] && e2[..1] == e1;
    assert Run(Initial, game, guard, e1[..0]) == Trace(Initial, [], false);
    assert !Initial.playDialog;
    assert Step(Initial, game, guard, Choose(option)) == Outcome(HandleChoice(Initial, option), None, false);
    var t1 := Run(Initial, game, guard, e1);
    assert t1 == Trace(HandleChoice(Initial, option), [], false);
  }

  /** Closing twice is closing once. */
  lemma CloseIdempotent(st: DialogState)
    ensures HandleClose(HandleClose(st).0) == HandleClose(st)
  {
  }

  // ---------------------------------------------------------------- the two guards

  /** The sign of the number in the field decides `bet > 0`. */
  lemma BetPositiveMeansAboveZero(f: BetField)
    ensures BetPositive(f) <==> NumeralValue(f) > 0.0
  {
    if f.Numeral? {
      var d := DigitsValue(f.whole + f.fraction) as real;
      var p := Pow10Real(f.exponent - |f.fraction|);
      if d > 0.0 {
        assert d * p > 0.0;
      } else {
        assert d == 0.0;
      }
    }
  }

  /** The corrected guard only admits bets the source's guard admits. */
  lemma CheckedGuardStricter(stakes: string, bet: BetField)
    requires AdmitsChecked(stakes, bet)
    ensures Admits(stakes, bet)
  {
    if stakes != FIXED_STAKES {
      DigitsValueConcat(bet.whole, bet.fraction);
    }
  }

  /** On a whole-number bet, the two guards agree. */
  lemma GuardsAgreeOnWholeNumbers(stakes: string, bet: BetField)
    requires bet.Numeral? && bet.fraction == [] && bet.exponent == 0 && |bet.whole| > 0
    ensures Admits(stakes, bet) <==> AdmitsChecked(stakes, bet)
  {
    assert bet.whole + bet.fraction == bet.whole;
  }

  /** Without an exponent, parseInt truncates a non-negative bet to the whole
      coins below it: the bet is whole + fraction / 10^|fraction|. */
  lemma ParseIntTruncates(bet: BetField)
    requires bet.Numeral? && !bet.negative && |bet.whole| > 0 && bet.exponent == 0
    ensures var n := ParseInt(bet).n;
            var scale := Pow10(|bet.fraction|);
            n * scale <= DigitsValue(bet.whole + bet.fraction) < (n + 1) * scale
  {
    DigitsValueConcat(bet.whole, bet.fraction);
    DigitsValueBound(bet.fraction);
  }

  /** parseInt stops at the exponent: the amount does not depend on it. */
  lemma ParseIntIgnoresExponent(f: BetField, e: int)
    requires f.Numeral?
    ensures ParseInt(f.(exponent := e)) == ParseInt(f)
  {
  }

  /** The bet 5e2 is worth 500, and the vote it sends stakes 5. */
  lemma ExponentBetSendsMantissa(st: DialogState, gameId: string)
    requires st.bet == Numeral(false, [5], [], 2)
    ensures NumeralValue(st.bet) == 500.0
    ensures var r := HandleSubmit(st, Game(gameId, "Open Stakes"));
            r.1.Some? && r.1.value.amount == Int(5)
  {
    var digits: seq<Digit> := [5] + [];
    assert digits == [5] && digits[..0] == [];
    assert DigitsValue(digits) == 5;
    assert Pow10Real(2) == 100.0;
  }

  /** The bet 0.5 passes the source's guard, and the vote it sends stakes 0. */
  lemma HalfCoinBetSendsZero(st: DialogState, gameId: string)
    requires st.bet == Numeral(false, [0], [5], 0)
    ensures var r := HandleSubmit(st, Game(gameId, "Open Stakes"));
            r.1.Some? && r.1.value.amount == Int(0) && r.0.querySent
  {
    var digits: seq<Digit> := [0] + [5];
    assert digits[..1] == [0] && digits[..1][..0] == [];
    assert DigitsValue(digits) == 5;
  }

  /** The corrected guard refuses the same bet and raises the error message. */
  lemma HalfCoinBetRefused(st: DialogState, gameId: string)
    requires st.bet == Numeral(false, [0], [5], 0)
    ensures var r := HandleSubmitChecked(st, Game(gameId, "Open Stakes"));
            r.1.None? && r.0.errorMsg && r.0.querySent == st.querySent
  {
    assert DigitsValue([0]) == 0;
  }

  /** Driving the source's dialog: choose an option, type 0.5, submit. One vote
      is sent, and it stakes 0. */
  lemma HalfCoinRun(gameId: string)
    ensures Run(Initial, Game(gameId, "Open Stakes"), AsWritten,
                [Choose("o"), Type(Numeral(false, [0], [5], 0)), Submit]).sent
         == [VoteInput(gameId, "o", Int(0))]
  {
    var game := Game(gameId, "Open Stakes");
    var bet := Numeral(false, [0], [5], 0);
    var e1, e2, e3 := [Choose("o")], [Choose("o"), Type(bet)], [Choose("o"), Type(bet), Submit];
    assert e1[..0] == [] && e2[..1] == e1 && e3[..2] == e2;
    assert Run(Initial, game, AsWritten, e1[..0]) == Trace(Initial, [], false);
    assert !Initial.playDialog;
    assert Step(Initial, game, AsWritten, Choose("o")) == Outcome(HandleChoice(Initial, "o"), None, false);
    var t1 := Run(Initial, game, AsWritten, e1);
    assert t1 == Trace(HandleChoice(Initial, "o"), [], false);
    var t2 := Run(Initial, game, AsWritten, e2);
    assert t2 == Trace(HandleBetChange(t1.state, bet), [], false);
    var st := t2.state;
    HalfCoinBetSendsZero(st, gameId);
  }

  /** The bet .5 passes the source's guard too, and the vote it sends carries NaN. */
  lemma PointFiveBetSendsNaN(st: DialogState, gameId: string)
    requires st.bet == Numeral(false, [], [5], 0)
    ensures var r := HandleSubmit(st, Game(gameId, "Open Stakes"));
            r.1.Some? && r.1.value.amount == NaN
  {
    var digits: seq<Digit> := [] + [5];
    assert digits[..0] == [];
    assert DigitsValue(digits) == 5;
  }
}
