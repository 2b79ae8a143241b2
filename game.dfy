/** The game's state and score machine (GameManager.cs) and the static event
    hub that drives it (UEvent.cs). The `PlayerPrefs` store is a map from keys
    to integers, the two views are reduced to their visibility and the player
    to its health. */
module Game {
  import opened Wrappers

  /** The game states the code distinguishes; every other value of the enum
      is `Other`. */
  datatype GameState = Menu | Game | Other(code: int)

  /** The methods subscribed to the events: `GameManager.PlayGame`,
      `StopGame`, `AddScore` and `GameView.UpdateView`. */
  datatype Handler = PlayGameHandler | StopGameHandler | AddScoreHandler | UpdateViewHandler

  /** `int.MaxValue`. */
  const MaxInt := 0x7FFF_FFFF

  /** A C# `int` sum wrapped to 32 bits (unchecked arithmetic). */
  function Wrap32(x: int): (r: int)
    ensures -MaxInt - 1 <= r <= MaxInt
    ensures -MaxInt - 1 <= x <= MaxInt ==> r == x
  {
    (x + MaxInt + 1) % 0x1_0000_0000 - MaxInt - 1
  }

  /** The key the best score is stored under. */
  const BestKey := "BestScore"

  /** Everything the handlers read and write, as one value. */
  datatype World = World(
    state: GameState,
    score: int,
    /** `_bestScore`, the last value read or written through `BestScore`. */
    cachedBest: int,
    prefs: map<string, int>,
    health: int,
    menuVisible: bool,
    gameVisible: bool)

  // ---------------------------------------------------------------------------
  // The manager's operations on values

  /** `GetBestScore`: the stored best score, storing 0 first when there is
      none. */
  function GetBest(prefs: map<string, int>): (r: (int, map<string, int>))
    ensures BestKey in r.1 && r.1[BestKey] == r.0
    ensures BestKey in prefs ==> r == (prefs[BestKey], prefs)
    ensures BestKey !in prefs ==> r == (0, prefs[BestKey := 0])
  {
    if BestKey in prefs then (prefs[BestKey], prefs) else (0, prefs[BestKey := 0])
  }

  /** Reading the `BestScore` property: caches what `GetBestScore` returns. */
  function ReadBest(w: World): (r: World)
    ensures BestKey in r.prefs && r.cachedBest == r.prefs[BestKey]
    ensures (r.cachedBest, r.prefs) == GetBest(w.prefs)
    ensures r.(cachedBest := w.cachedBest, prefs := w.prefs) == w
  {
    var (b, p) := GetBest(w.prefs);
    w.(cachedBest := b, prefs := p)
  }

  /** Writing the `BestScore` property: stores and caches the value. */
  function WriteBest(w: World, value: int): (r: World)
    ensures r.prefs == w.prefs[BestKey := value] && r.cachedBest == value
    ensures r.(cachedBest := w.cachedBest, prefs := w.prefs) == w
  {
    w.(cachedBest := value, prefs := w.prefs[BestKey := value])
  }

  /** `HandleView`. */
  function ShowViews(w: World): (r: World)
    ensures r.menuVisible <==> w.state == Menu
    ensures r.gameVisible <==> w.state == Game
    ensures !(r.menuVisible && r.gameVisible)
    ensures r.(menuVisible := w.menuVisible, gameVisible := w.gameVisible) == w
  {
    w.(menuVisible := w.state == Menu, gameVisible := w.state == Game)
  }

  /** `PlayGame`. */
  function Played(w: World, initialHealth: int): World {
    ShowViews(w.(score := 0, health := initialHealth))
  }

  /** `StopGame`. */
  function Stopped(w: World): World {
    ShowViews(w)
  }

  /** `GameView.UpdateView`: its only effect on the state is reading
      `BestScore`. */
  function ViewUpdated(w: World): World {
    ReadBest(w)
  }

  /** `AddScore`. */
  function Scored(w: World): World {
    var w1 := w.(score := Wrap32(w.score + 1));
    var w2 := ReadBest(w1);
    var w3 := if w2.score > w2.cachedBest then WriteBest(w2, w2.score) else w2;
    ViewUpdated(w3)
  }

  /** One handler. */
  function Apply(w: World, h: Handler, initialHealth: int): World {
    match h
    case PlayGameHandler => Played(w, initialHealth)
    case StopGameHandler => Stopped(w)
    case AddScoreHandler => Scored(w)
    case UpdateViewHandler => ViewUpdated(w)
  }

  /** A multicast invocation: each handler in subscription order. */
  function ApplyAll(w: World, hs: seq<Handler>, initialHealth: int): World
    decreases |hs|
  {
    if hs == [] then w else Apply(ApplyAll(w, hs[..|hs| - 1], initialHealth), hs[|hs| - 1], initialHealth)
  }

  // ---------------------------------------------------------------------------
  // What the operations promise

  /** `PlayGame` zeroes the score, restores the health and shows the view of
      the current state; the state and the stored best score are kept. */
  lemma PlayGameResets(w: World, initialHealth: int)
    ensures var r := Played(w, initialHealth);
      && r.score == 0 && r.health == initialHealth
      && r.state == w.state && r.prefs == w.prefs && r.cachedBest == w.cachedBest
      && (r.menuVisible <==> w.state == Menu) && (r.gameVisible <==> w.state == Game)
  {
  }

  /** `StopGame` changes only which view is visible. */
  lemma StopGameOnlyViews(w: World)
    ensures var r := Stopped(w);
      && r.score == w.score && r.health == w.health && r.state == w.state
      && r.prefs == w.prefs && r.cachedBest == w.cachedBest
      && !(r.menuVisible && r.gameVisible)
  {
  }

  /** `AddScore` adds exactly one point, wrapping at `int.MaxValue`. */
  lemma AddScoreIncrements(w: World)
    ensures Scored(w).score == Wrap32(w.score + 1)
    ensures -MaxInt - 1 <= w.score < MaxInt ==> Scored(w).score == w.score + 1
    ensures Scored(w).health == w.health && Scored(w).state == w.state
  {
  }

  /** After `AddScore` a best score is stored, it is at least the score, and
      the cache agrees with the store. */
  lemma AddScoreKeepsBest(w: World)
    ensures var r := Scored(w);
      BestKey in r.prefs && r.prefs[BestKey] >= r.score && r.cachedBest == r.prefs[BestKey]
  {
  }

  /** The stored best score never decreases; it changes only when the new
      score strictly exceeds it, and then becomes that score. A missing key
      counts as 0. */
  lemma BestOnlyRises(w: World)
    ensures var old_best := if BestKey in w.prefs then w.prefs[BestKey] else 0;
      var r := Scored(w);
      && r.prefs[BestKey] >= old_best
      && (r.prefs[BestKey] != old_best <==> r.score > old_best)
      && (r.score > old_best ==> r.prefs[BestKey] == r.score)
      && (forall k | k in w.prefs && k != BestKey :: k in r.prefs && r.prefs[k] == w.prefs[k])
  {
  }

  /** Reading `BestScore` with no stored key stores 0 and returns 0; with a
      key it returns the stored value and changes nothing else. Either way a
      second read changes nothing. */
  lemma ReadBestOnce(w: World)
    ensures BestKey !in w.prefs ==> ReadBest(w).cachedBest == 0 && ReadBest(w).prefs == w.prefs[BestKey := 0]
    ensures BestKey in w.prefs ==> ReadBest(w) == w.(cachedBest := w.prefs[BestKey])
    ensures ReadBest(ReadBest(w)) == ReadBest(w)
  {
  }

  /** Handlers run in order: invoking `a + b` invokes `a`, then `b`. */
  lemma {:induction false} ApplyAllAppend(w: World, a: seq<Handler>, b: seq<Handler>, initialHealth: int)
    ensures ApplyAll(w, a + b, initialHealth) == ApplyAll(ApplyAll(w, a, initialHealth), b, initialHealth)
    decreases |b|
  {
    if b == [] {
      assert a + b == a;
    } else {
      assert (a + b)[..|a + b| - 1] == a + b[..|b| - 1];
      ApplyAllAppend(w, a, b[..|b| - 1], initialHealth);
    }
  }

  /** No handler changes the game state. */
  lemma {:induction false} HandlersKeepState(w: World, hs: seq<Handler>, initialHealth: int)
    ensures ApplyAll(w, hs, initialHealth).state == w.state
    decreases |hs|
  {
    if hs != [] {
      HandlersKeepState(w, hs[..|hs| - 1], initialHealth);
    }
  }

  // ---------------------------------------------------------------------------
  // Subscriber lists

  /** `event += h`: `h` runs last, and a later `-=` takes it off again. */
  function Subscribe(hs: seq<Handler>, h: Handler): (r: seq<Handler>)
    ensures |r| == |hs| + 1 && r[|hs|] == h
    ensures Unsubscribe(r, h) == hs
  {
    var r := hs + [h];
    assert r[..|r| - 1] == hs;
    r
  }

  /** `event -= h`: removes the last occurrence of `h`, if any. */
  function Unsubscribe(hs: seq<Handler>, h: Handler): (r: seq<Handler>)
    ensures h !in hs ==> r == hs
    ensures h in hs ==> |r| == |hs| - 1
    decreases |hs|
  {
    if hs == [] then hs
    else if hs[|hs| - 1] == h then hs[..|hs| - 1]
    else Unsubscribe(hs[..|hs| - 1], h) + [hs[|hs| - 1]]
  }

  /** `-=` takes out exactly the last occurrence of the handler and keeps the
      others in order. */
  lemma UnsubscribeRemovesLast(hs: seq<Handler>, h: Handler)
    requires h in hs
    ensures exists k | 0 <= k < |hs| ::
      hs[k] == h && h !in hs[k + 1..] && Unsubscribe(hs, h) == hs[..k] + hs[k + 1..]
  {
    var k := LastOccurrence(hs, h);
  }

  /** The index of the occurrence that `-=` removes. */
  lemma {:induction false} LastOccurrence(hs: seq<Handler>, h: Handler) returns (k: nat)
    requires h in hs
    ensures k < |hs| && hs[k] == h && h !in hs[k + 1..]
    ensures Unsubscribe(hs, h) == hs[..k] + hs[k + 1..]
    decreases |hs|
  {
    var n := |hs| - 1;
    if hs[n] == h {
      k := n;
      assert hs[n + 1..] == [];
    } else {
      var front := hs[..n];
      assert h in front by {
        var i :| 0 <= i < |hs| && hs[i] == h;
        assert front[i] == h;
      }
      k := LastOccurrence(front, h);
      assert Unsubscribe(hs, h) == Unsubscribe(front, h) + [hs[n]];
      assert hs[k + 1..] == front[k + 1..] + [hs[n]];
      assert hs[..k] == front[..k];
      assert (front[..k] + front[k + 1..]) + [hs[n]] == hs[..k] + (front[k + 1..] + [hs[n]]);
    }
  }

  /** The five static events of `UEvent`. */
  datatype Subscribers = Subscribers(
    onPlayGame: seq<Handler>,
    onStopGame: seq<Handler>,
    onObstacleDestroyed: seq<Handler>,
    onEnemyDestroyed: seq<Handler>,
    onPlayerGetDamage: seq<Handler>)

  /** `GameManager.OnEnable`'s subscriptions. */
  function Enabled(s: Subscribers): Subscribers {
    s.(
      onPlayGame := Subscribe(s.onPlayGame, PlayGameHandler),
      onStopGame := Subscribe(s.onStopGame, StopGameHandler),
      onEnemyDestroyed := Subscribe(s.onEnemyDestroyed, AddScoreHandler),
      onObstacleDestroyed := Subscribe(s.onObstacleDestroyed, AddScoreHandler),
      onPlayerGetDamage := Subscribe(s.onPlayerGetDamage, UpdateViewHandler))
  }

  /** `GameManager.OnDisable`'s unsubscriptions. */
  function Disabled(s: Subscribers): Subscribers {
    s.(
      onPlayGame := Unsubscribe(s.onPlayGame, PlayGameHandler),
      onStopGame := Unsubscribe(s.onStopGame, StopGameHandler),
      onEnemyDestroyed := Unsubscribe(s.onEnemyDestroyed, AddScoreHandler),
      onObstacleDestroyed := Unsubscribe(s.onObstacleDestroyed, AddScoreHandler),
      onPlayerGetDamage := Unsubscribe(s.onPlayerGetDamage, UpdateViewHandler))
  }

  /** Disabling the manager undoes enabling it. */
  lemma DisableAfterEnable(s: Subscribers)
    ensures Disabled(Enabled(s)) == s
  {
  }

  const NoSubscribers := Subscribers([], [], [], [], [])

  // ---------------------------------------------------------------------------
  // The hub's operations on values

  /** `UEvent.GameState(state)`: the state is written, then the handlers of
      `OnPlayGame` when it is `Game` and those of `OnStopGame` otherwise run;
      an event with no subscriber is `null` and is skipped. */
  function ChangeState(w: World, s: Subscribers, state: GameState, initialHealth: int): World {
    ApplyAll(w.(state := state), if state == Game then s.onPlayGame else s.onStopGame, initialHealth)
  }

  /** `UEvent.DestroyObstacle`, `DestroyEnemy` and `PlayerGetDamage` all raise
      `OnObstacleDestroyed`, without a null check: with no subscriber the
      call throws a `NullReferenceException`. */
  function ObstacleRaised(w: World, s: Subscribers, initialHealth: int): (r: Outcome<World, string>)
    ensures r.Threw? <==> s.onObstacleDestroyed == []
  {
    if s.onObstacleDestroyed == [] then Threw("NullReferenceException")
    else Returned(ApplyAll(w, s.onObstacleDestroyed, initialHealth))
  }

  /** With no subscriber `GameState` only writes the state. */
  lemma ChangeStateUnsubscribed(w: World, state: GameState, initialHealth: int)
    ensures ChangeState(w, NoSubscribers, state, initialHealth) == w.(state := state)
  {
  }

  /** With the manager's subscriptions, `GameState(s)` sets the state and
      then plays the game exactly when `s` is `Game` and stops it otherwise. */
  lemma ChangeStateWithManager(w: World, state: GameState, initialHealth: int)
    ensures var r := ChangeState(w, Enabled(NoSubscribers), state, initialHealth);
      && r.state == state
      && (state == Game ==> r == Played(w.(state := state), initialHealth))
      && (state != Game ==> r == Stopped(w.(state := state)))
  {
    assert [PlayGameHandler][..0] == [];
    assert [StopGameHandler][..0] == [];
  }

  /** With the manager's subscriptions, taking damage scores a point exactly
      as destroying an obstacle or an enemy does; with none it throws. */
  lemma DamageScores(w: World, initialHealth: int)
    ensures ObstacleRaised(w, Enabled(NoSubscribers), initialHealth) == Returned(Scored(w))
    ensures ObstacleRaised(w, NoSubscribers, initialHealth).Threw?
  {
    assert [AddScoreHandler][..0] == [];
  }

  // ---------------------------------------------------------------------------
  // The objects

  /** `MenuView` or `GameView`, reduced to its visibility. */
  class View {
    var isVisible: bool
    constructor ()
      ensures !isVisible
    {
      isVisible := false;
    }
  }

  /** The player, reduced to its health. */
  class Player {
    var health: int
    constructor (health: int)
      ensures this.health == health
    {
      this.health := health;
    }
  }

  /** The `PlayerPrefs` integer store. */
  class Prefs {
    var store: map<string, int>
    constructor (store: map<string, int>)
      ensures this.store == store
    {
      this.store := store;
    }
  }

  class GameManager {
    var gameState: GameState
    var score: int
    var bestScore: int
    const initialHealth: int
    const player: Player
    const menuView: View
    const gameView: View
    const prefs: Prefs

    /** The objects the manager's methods write. */
    function Footprint(): set<object> {
      {this, player, menuView, gameView, prefs}
    }

    predicate Valid()
      reads this
    {
      menuView != gameView
    }

    /** The state the handlers act on. */
    function Snapshot(): World
      reads Footprint()
    {
      World(gameState, score, bestScore, prefs.store, player.health, menuView.isVisible, gameView.isVisible)
    }

    constructor (initialHealth: int, player: Player, menuView: View, gameView: View, prefs: Prefs)
      requires menuView != gameView
      ensures Valid() && gameState == Menu && score == 0 && bestScore == 0
      ensures this.initialHealth == initialHealth && this.player == player
      ensures this.menuView == menuView && this.gameView == gameView && this.prefs == prefs
    {
      gameState := Menu;
      score := 0;
      bestScore := 0;
      this.initialHealth := initialHealth;
      this.player := player;
      this.menuView := menuView;
      this.gameView := gameView;
      this.prefs := prefs;
    }

    /** `GetBestScore`. */
    method GetBestScore() returns (value: int)
      modifies prefs
      ensures (value, prefs.store) == GetBest(old(prefs.store))
    {
      if BestKey !in prefs.store {
        prefs.store := prefs.store[BestKey := 0];
      }
      value := prefs.store[BestKey];
    }

    /** The `BestScore` getter. */
    method GetBestScoreProperty() returns (value: int)
      requires Valid()
      modifies this, prefs
      ensures Valid() && Snapshot() == ReadBest(old(Snapshot())) && value == bestScore
      ensures gameState == old(gameState)
    {
      bestScore := GetBestScore();
      value := bestScore;
    }

    /** The `BestScore` setter. */
    method SetBestScore(value: int)
      requires Valid()
      modifies this, prefs
      ensures Valid() && Snapshot() == WriteBest(old(Snapshot()), value)
      ensures gameState == old(gameState)
    {
      prefs.store := prefs.store[BestKey := value];
      bestScore := value;
    }

    method HandleView()
      requires Valid()
      modifies menuView, gameView
      ensures Snapshot() == ShowViews(old(Snapshot()))
    {
      menuView.isVisible := gameState == Menu;
      gameView.isVisible := gameState == Game;
    }

    method PlayGame()
      requires Valid()
      modifies this, player, menuView, gameView
      ensures Valid() && Snapshot() == Played(old(Snapshot()), initialHealth)
      ensures gameState == old(gameState)
    {
      score := 0;
      player.health := initialHealth;
      HandleView();
    }

    method StopGame()
      requires Valid()
      modifies menuView, gameView
      ensures Snapshot() == Stopped(old(Snapshot()))
    {
      HandleView();
    }

    /** `GameView.UpdateView`, which reads `BestScore`. */
    method UpdateView()
      requires Valid()
      modifies this, prefs
      ensures Valid() && Snapshot() == ViewUpdated(old(Snapshot()))
      ensures gameState == old(gameState)
    {
      var _ := GetBestScoreProperty();
    }

    method AddScore()
      requires Valid()
      modifies this, prefs
      ensures Valid() && Snapshot() == Scored(old(Snapshot()))
      ensures gameState == old(gameState)
    {
      score := Wrap32(score + 1);
      var best := GetBestScoreProperty();
      if score > best {
        SetBestScore(score);
      }
      UpdateView();
    }

    /** Runs one subscribed handler. */
    method Handle(h: Handler)
      requires Valid()
      modifies Footprint()
      ensures Valid() && Snapshot() == Apply(old(Snapshot()), h, initialHealth)
    {
      match h {
        case PlayGameHandler => PlayGame();
        case StopGameHandler => StopGame();
        case AddScoreHandler => AddScore();
        case UpdateViewHandler => UpdateView();
      }
    }

    /** Invokes a multicast delegate: its handlers in subscription order. */
    method Invoke(hs: seq<Handler>)
      requires Valid()
      modifies Footprint()
      ensures Valid() && Snapshot() == ApplyAll(old(Snapshot()), hs, initialHealth)
    {
      var i := 0;
      while i < |hs|
        invariant 0 <= i <= |hs|
        invariant Valid() && Snapshot() == ApplyAll(old(Snapshot()), hs[..i], initialHealth)
      {
        Handle(hs[i]);
        assert hs[..i + 1][..i] == hs[..i];
        i := i + 1;
      }
      assert hs[..i] == hs;
    }
  }

  /** The static event hub, with the manager `GameManager.Ref` returns. */
  class Hub {
    const manager: GameManager
    var onPlayGame: seq<Handler>
    var onStopGame: seq<Handler>
    var onObstacleDestroyed: seq<Handler>
    var onEnemyDestroyed: seq<Handler>
    var onPlayerGetDamage: seq<Handler>

    function Subscribed(): Subscribers
      reads this
    {
      Subscribers(onPlayGame, onStopGame, onObstacleDestroyed, onEnemyDestroyed, onPlayerGetDamage)
    }

    constructor (manager: GameManager)
      ensures this.manager == manager && Subscribed() == NoSubscribers
    {
      this.manager := manager;
      onPlayGame := [];
      onStopGame := [];
      onObstacleDestroyed := [];
      onEnemyDestroyed := [];
      onPlayerGetDamage := [];
    }

    /** `GameManager.OnEnable`'s subscriptions. */
    method EnableManager()
      modifies this
      ensures Subscribed() == Enabled(old(Subscribed()))
    {
      onPlayGame := Subscribe(onPlayGame, PlayGameHandler);
      onStopGame := Subscribe(onStopGame, StopGameHandler);
      onEnemyDestroyed := Subscribe(onEnemyDestroyed, AddScoreHandler);
      onObstacleDestroyed := Subscribe(onObstacleDestroyed, AddScoreHandler);
      onPlayerGetDamage := Subscribe(onPlayerGetDamage, UpdateViewHandler);
    }

    /** `GameManager.OnDisable`'s unsubscriptions. */
    method DisableManager()
      modifies this
      ensures Subscribed() == Disabled(old(Subscribed()))
    {
      onPlayGame := Unsubscribe(onPlayGame, PlayGameHandler);
      onStopGame := Unsubscribe(onStopGame, StopGameHandler);
      onEnemyDestroyed := Unsubscribe(onEnemyDestroyed, AddScoreHandler);
      onObstacleDestroyed := Unsubscribe(onObstacleDestroyed, AddScoreHandler);
      onPlayerGetDamage := Unsubscribe(onPlayerGetDamage, UpdateViewHandler);
    }

    /** `UEvent.GameState`. */
    method GameState(state: GameState)
      requires manager.Valid() && this !in manager.Footprint()
      modifies manager.Footprint()
      ensures manager.Valid()
      ensures manager.Snapshot() == ChangeState(old(manager.Snapshot()), Subscribed(), state, manager.initialHealth)
    {
      manager.gameState := state;
      var handlers := if state == Game then onPlayGame else onStopGame;
      if handlers != [] {
        manager.Invoke(handlers);
      }
    }

    /** Raises `OnObstacleDestroyed`; `threw` stands for the
        `NullReferenceException` of an event with no subscriber. */
    method RaiseObstacle() returns (threw: bool)
      requires manager.Valid() && this !in manager.Footprint()
      modifies manager.Footprint()
      ensures manager.Valid()
      ensures var r := ObstacleRaised(old(manager.Snapshot()), Subscribed(), manager.initialHealth);
        && threw == r.Threw?
        && manager.Snapshot() == if r.Threw? then old(manager.Snapshot()) else r.value
    {
      if onObstacleDestroyed == [] {
        threw := true;
        return;
      }
      threw := false;
      manager.Invoke(onObstacleDestroyed);
    }

    method DestroyObstacle() returns (threw: bool)
      requires manager.Valid() && this !in manager.Footprint()
      modifies manager.Footprint()
      ensures manager.Valid()
      ensures var r := ObstacleRaised(old(manager.Snapshot()), Subscribed(), manager.initialHealth);
        && threw == r.Threw?
        && manager.Snapshot() == if r.Threw? then old(manager.Snapshot()) else r.value
    {
      threw := RaiseObstacle();
    }

    /** Raises `OnObstacleDestroyed`, not `OnEnemyDestroyed`. */
    method DestroyEnemy() returns (threw: bool)
      requires manager.Valid() && this !in manager.Footprint()
      modifies manager.Footprint()
      ensures manager.Valid()
      ensures var r := ObstacleRaised(old(manager.Snapshot()), Subscribed(), manager.initialHealth);
        && threw == r.Threw?
        && manager.Snapshot() == if r.Threw? then old(manager.Snapshot()) else r.value
    {
      threw := RaiseObstacle();
    }

    /** Raises `OnObstacleDestroyed`, not `OnPlayerGetDamage`. */
    method PlayerGetDamage() returns (threw: bool)
      requires manager.Valid() && this !in manager.Footprint()
      modifies manager.Footprint()
      ensures manager.Valid()
      ensures var r := ObstacleRaised(old(manager.Snapshot()), Subscribed(), manager.initialHealth);
        && threw == r.Threw?
        && manager.Snapshot() == if r.Threw? then old(manager.Snapshot()) else r.value
    {
      threw := RaiseObstacle();
    }
  }
}
