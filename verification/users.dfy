/**
 Per-user bookkeeping (game_logic.go, AllocateMoney, allocateWinOrLoss and
 allocateExp). Each operation looks the user up by id, changes one part of the
 record and writes it back; the user table is a map from ids to records, and a
 failed lookup or a refused change leaves the table as it was.
 */
module Users {
  import opened Wrappers
  import Levels

  type UserId = string

  /** The integer parts of a user record; the floating-point win rate is derived
      from the two game counters and is not kept here. */
  datatype User = User(
    id: UserId,
    moneyTotal: int,
    experience: int,
    gamesPlayed: int,
    gamesWon: int)

  type Store = map<UserId, User>

  datatype UserError = NoSuchUser | NotEnoughMoney

  const HOST_EXP: int := 10
  const VOTE_EXP: int := 5
  const WIN_EXP: int := 10

  /** The counters of one user make sense: no more wins than games. */
  predicate StatsValid(u: User)
  {
    0 <= u.gamesWon <= u.gamesPlayed
  }

  predicate AllStatsValid(store: Store)
  {
    forall id :: id in store ==> StatsValid(store[id])
  }

  predicate AllSolvent(store: Store)
  {
    forall id :: id in store ==> store[id].moneyTotal >= 0
  }

  /** AllocateMoney: add money (possibly negative) to the balance, refusing any
      change that would leave the balance below zero. */
  function AllocateMoney(store: Store, userId: UserId, money: int): (r: Result<Store, UserError>)
    ensures userId !in store ==> r == Err(NoSuchUser)
    ensures userId in store && store[userId].moneyTotal + money < 0 ==> r == Err(NotEnoughMoney)
    ensures r.Ok? ==> userId in store && r.value.Keys == store.Keys
    ensures r.Ok? ==> r.value[userId].moneyTotal == store[userId].moneyTotal + money >= 0
    ensures r.Ok? ==> forall id :: id in store && id != userId ==> r.value[id] == store[id]
    ensures r.Ok? ==> r.value[userId] == store[userId].(moneyTotal := r.value[userId].moneyTotal)
  {
    if userId !in store then Err(NoSuchUser)
    else
      var u := store[userId];
      var total := u.moneyTotal + money;
      if total < 0 then Err(NotEnoughMoney)
      else Ok(store[userId := u.(moneyTotal := total)])
  }

  /** allocateWinOrLoss: one more game played, and one more won when win holds. */
  function AllocateWinOrLoss(store: Store, userId: UserId, win: bool): (r: Result<Store, UserError>)
    ensures userId !in store <==> r == Err(NoSuchUser)
    ensures r.Ok? ==> r.value.Keys == store.Keys
    ensures r.Ok? ==> r.value[userId].gamesPlayed == store[userId].gamesPlayed + 1
    ensures r.Ok? ==> r.value[userId].gamesWon == store[userId].gamesWon + (if win then 1 else 0)
    ensures r.Ok? ==> forall id :: id in store && id != userId ==> r.value[id] == store[id]
    ensures r.Ok? ==> r.value[userId] == store[userId].(gamesPlayed := r.value[userId].gamesPlayed,
                                                        gamesWon := r.value[userId].gamesWon)
  {
    if userId !in store then Err(NoSuchUser)
    else
      var u := store[userId];
      var played := u.gamesPlayed + 1;
      var won := if win then u.gamesWon + 1 else u.gamesWon;
      Ok(store[userId := u.(gamesPlayed := played, gamesWon := won)])
  }

  /** allocateExp: add experience to a user. */
  function AllocateExp(store: Store, userId: UserId, exp: int): (r: Result<Store, UserError>)
    ensures userId !in store <==> r == Err(NoSuchUser)
    ensures r.Ok? ==> r.value.Keys == store.Keys
    ensures r.Ok? ==> r.value[userId].experience == store[userId].experience + exp
    ensures r.Ok? ==> forall id :: id in store && id != userId ==> r.value[id] == store[id]
    ensures r.Ok? ==> r.value[userId] == store[userId].(experience := r.value[userId].experience)
  {
    if userId !in store then Err(NoSuchUser)
    else Ok(store[userId := store[userId].(experience := store[userId].experience + exp)])
  }

  /** AllocateHostExp, AllocateVoteExp and AllocateWinExp: fixed experience rewards. */
  function AllocateHostExp(store: Store, userId: UserId): (r: Result<Store, UserError>)
    ensures userId !in store <==> r == Err(NoSuchUser)
    ensures r.Ok? ==> (userId in store && userId in r.value &&
                       r.value[userId].experience == store[userId].experience + HOST_EXP)
    ensures r.Ok? ==> r.value.Keys == store.Keys
    ensures r.Ok? ==> forall id :: id in store && id != userId ==> r.value[id] == store[id]
    ensures r.Ok? ==> r.value[userId] == store[userId].(experience := r.value[userId].experience)
  {
    AllocateExp(store, userId, HOST_EXP)
  }

  function AllocateVoteExp(store: Store, userId: UserId): (r: Result<Store, UserError>)
    ensures userId !in store <==> r == Err(NoSuchUser)
    ensures r.Ok? ==> (userId in store && userId in r.value &&
                       r.value[userId].experience == store[userId].experience + VOTE_EXP)
    ensures r.Ok? ==> r.value.Keys == store.Keys
    ensures r.Ok? ==> forall id :: id in store && id != userId ==> r.value[id] == store[id]
    ensures r.Ok? ==> r.value[userId] == store[userId].(experience := r.value[userId].experience)
  {
    AllocateExp(store, userId, VOTE_EXP)
  }

  function AllocateWinExp(store: Store, userId: UserId): (r: Result<Store, UserError>)
    ensures userId !in store <==> r == Err(NoSuchUser)
    ensures r.Ok? ==> (userId in store && userId in r.value &&
                       r.value[userId].experience == store[userId].experience + WIN_EXP)
    ensures r.Ok? ==> r.value.Keys == store.Keys
    ensures r.Ok? ==> forall id :: id in store && id != userId ==> r.value[id] == store[id]
    ensures r.Ok? ==> r.value[userId] == store[userId].(experience := r.value[userId].experience)
  {
    AllocateExp(store, userId, WIN_EXP)
  }

  /** The store after an update whose failure the caller ignores. */
  function OrUnchanged(r: Result<Store, UserError>, store: Store): Store
  {
    if r.Ok? then r.value else store
  }

  // ---------------------------------------------------------------- properties

  /** AllocateMoney never leaves anyone with a negative balance. */
  lemma AllocateMoneyKeepsSolvent(store: Store, userId: UserId, money: int)
    requires AllSolvent(store)
    ensures AllSolvent(OrUnchanged(AllocateMoney(store, userId, money), store))
  {
  }

  /** From a non-negative balance, taking back what was just added restores the
      store exactly. */
  lemma AllocateMoneyUndo(store: Store, userId: UserId, money: int)
    requires userId in store && store[userId].moneyTotal >= 0
    requires AllocateMoney(store, userId, money).Ok?
    ensures AllocateMoney(AllocateMoney(store, userId, money).value, userId, -money) == Ok(store)
  {
    var s1 := AllocateMoney(store, userId, money).value;
    assert s1[userId].moneyTotal - money == store[userId].moneyTotal >= 0;
    assert s1[userId := s1[userId].(moneyTotal := store[userId].moneyTotal)] == store;
  }

  /** A payment succeeds exactly when the user exists and can afford it. */
  lemma AllocateMoneySucceeds(store: Store, userId: UserId, money: int)
    ensures AllocateMoney(store, userId, money).Ok? <==>
              userId in store && store[userId].moneyTotal + money >= 0
  {
  }

  /** allocateWinOrLoss keeps every user's wins within their games played. */
  lemma WinOrLossKeepsStats(store: Store, userId: UserId, win: bool)
    requires AllStatsValid(store)
    ensures AllStatsValid(OrUnchanged(AllocateWinOrLoss(store, userId, win), store))
  {
  }

  /** Gaining non-negative experience never lowers a level. */
  lemma ExpNeverLowersLevel(store: Store, userId: UserId, exp: int)
    requires userId in store && exp >= 0
    ensures Levels.LevelOf(store[userId].experience)
         <= Levels.LevelOf(AllocateExp(store, userId, exp).value[userId].experience)
  {
    Levels.LevelMonotone(store[userId].experience, store[userId].experience + exp);
  }
}
