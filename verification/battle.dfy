/** One battle: the six heroes, the session state the click handlers read
    and write, a hero's cast (elimination, damage, gravity, refill), the
    enemy's counter-attack and the reset after a victory or a defeat.

    Each handler is modelled as one atomic step from one resting state to
    the next; every `Math.random()` it consumes is an explicit draw in
    `Dice`. */
module Battle {
  import opened Gems
  import opened Board
  import opened Targeting
  import opened Chain
  import opened Gravity
  import opened Spawn

  /** A hero: its skill covers a `width` x `height` footprint and deals
      damage through the gems of its `attribute`. */
  datatype Hero = Hero(id: nat, attribute: Gem, width: nat, height: nat)

  /** `heroesConfig`; a hero's id is its index. */
  const Heroes: seq<Hero> := [
    Hero(0, Fire, 1, 4),
    Hero(1, Water, 2, 3),
    Hero(2, Wood, 2, 4),
    Hero(3, Light, 3, 3),
    Hero(4, Dark, 4, 1),
    Hero(5, Fire, 2, 1)
  ]

  /** The fire mage, whose cast also spawns a flame. */
  const FireMageId: nat := 5

  /** The level fields the battle reads. A damage bound that is absent or
      zero falls back to its default, as `||` does. */
  datatype Level = Level(enemyMaxHp: int, minDamage: Option<int>, maxDamage: Option<int>, playerMaxHp: int)

  /** HPs `resetGame` restores when no level has been started. */
  const DefaultEnemyHp: int := 500
  const DefaultPlayerHp: int := 10000

  /** Default enemy damage bounds of a level. */
  const DefaultMinDamage: int := 500
  const DefaultMaxDamage: int := 1000

  /** The part of `gameState` the battle logic reads and writes; `level`
      stands for both `currentLevel` and `gameState.currentEnemy`, which
      `startLevel` sets together. */
  datatype Session = Session(
    board: Board,
    enemyHp: int,
    playerHp: int,
    isPlayerTurn: bool,
    isSelectingArea: bool,
    selectedHero: Option<nat>,
    level: Option<Level>)

  /** The random draws one gem click consumes: the flame spawn's two draws,
      one draw per refilled cell, the enemy's damage draw and, should the
      battle end, one draw per cell of the new board. */
  datatype Dice = Dice(spawnPick: real, spawnCol: real, refill: seq<seq<Roll>>, attack: real, redraw: seq<seq<Roll>>)

  predicate ValidDice(d: Dice) {
    && UnitInterval(d.spawnPick)
    && UnitInterval(d.spawnCol)
    && ValidRolls(d.refill)
    && UnitInterval(d.attack)
    && ValidRolls(d.redraw)
  }

  /** `calculateDamage`: 100 per matching gem plus a 50 bonus per matching gem. */
  function CalculateDamage(matchingCount: nat): (damage: nat)
    ensures damage == 150 * matchingCount
    ensures damage == 0 <==> matchingCount == 0
  {
    matchingCount * 100 + (if matchingCount > 0 then matchingCount * 50 else 0)
  }

  /** A removed cell counts toward damage: an elemental gem of the hero's attribute. */
  predicate IsMatching(cell: Cell, attribute: Gem) {
    cell.Some? && cell.value != Bomb && cell.value != Flame && cell.value == attribute
  }

  /** The removed cells that count toward damage, read on the board before
      removal: for an elemental attribute, the bomb and flame exclusions drop
      out and these are exactly the removed cells holding that gem. */
  function MatchingGems(b: Board, removed: set<Pos>, attribute: Gem): (m: set<Pos>)
    ensures m <= removed
    ensures IsElemental(attribute) ==>
      forall p :: p in m <==> p in removed && IsValidPosition(p) && At(b, p) == Some(attribute)
    ensures !IsElemental(attribute) ==> m == {}
  {
    set p | p in removed && IsValidPosition(p) && IsMatching(At(b, p), attribute)
  }

  /** The valid cells of the hero's footprint at `center`: the seeds of the chain. */
  function Footprint(hero: Hero, center: Pos): (seeds: seq<Pos>)
    ensures AllValid(seeds)
    ensures Distinct(seeds)
    ensures forall q :: q in seeds <==>
      IsValidPosition(q) && InRect(q, center.row - hero.height / 2, center.col - hero.width / 2, hero.width, hero.height)
  {
    FilterValid(GetSkillArea(center, hero.width, hero.height))
  }

  /** The board cells a cast's chain reaches that hold an elemental gem of
      the hero's attribute, stated cell by cell over the board. */
  ghost function ChainedMatches(b: Board, hero: Hero, center: Pos): set<Pos> {
    set r, c | 0 <= r < N && 0 <= c < N && Chained(b, Footprint(hero, center), Pos(r, c))
      && At(b, Pos(r, c)) == Some(hero.attribute) && IsElemental(hero.attribute) :: Pos(r, c)
  }

  /** The damage of a cast: 150 per chained cell that holds a gem of the hero's attribute. */
  function CastDamage(b: Board, hero: Hero, center: Pos): (damage: nat)
    ensures damage == 150 * |ChainedMatches(b, hero, center)|
    ensures damage <= 150 * |Removed(b, Footprint(hero, center))|
  {
    var removed := Removed(b, Footprint(hero, center));
    var matching := MatchingGems(b, removed, hero.attribute);
    SubsetCard(matching, removed);
    assert matching == ChainedMatches(b, hero, center);
    CalculateDamage(|matching|)
  }

  lemma SubsetCard<T>(a: set<T>, b: set<T>)
    requires a <= b
    ensures |a| <= |b|
  {
    assert b == a + (b - a);
  }

  /** A cast hurts the enemy exactly when its chain reaches a gem of the hero's attribute. */
  lemma CastDamageMeaning(b: Board, hero: Hero, center: Pos)
    ensures CastDamage(b, hero, center) > 0 <==>
      exists p :: IsValidPosition(p) && Chained(b, Footprint(hero, center), p) && IsMatching(At(b, p), hero.attribute)
  {
    var removed := Removed(b, Footprint(hero, center));
    var matching := MatchingGems(b, removed, hero.attribute);
    if CastDamage(b, hero, center) > 0 {
      assert |matching| > 0;
      var p :| p in matching;
      assert IsValidPosition(p) && Chained(b, Footprint(hero, center), p);
    }
    if exists p :: IsValidPosition(p) && Chained(b, Footprint(hero, center), p) && IsMatching(At(b, p), hero.attribute) {
      var p :| IsValidPosition(p) && Chained(b, Footprint(hero, center), p) && IsMatching(At(b, p), hero.attribute);
      assert p in matching;
    }
  }

  /** The board right after the elimination and, for the fire mage, the
      flame spawn: every chained cell is emptied, except that the fire mage
      writes one flame at the spawn target; every other cell keeps its gem. */
  function AfterElimination(b: Board, hero: Hero, center: Pos, d: Dice): (r: Board)
    requires ValidDice(d)
    ensures hero.id != FireMageId ==> forall p :: IsValidPosition(p) ==>
      (At(r, p).None? <==> Chained(b, Footprint(hero, center), p) || At(b, p).None?)
    ensures hero.id != FireMageId ==> forall p :: IsValidPosition(p) && !Chained(b, Footprint(hero, center), p) ==>
      At(r, p) == At(b, p)
    ensures hero.id == FireMageId ==>
      var t := SpawnTarget(RemoveGems(b, Footprint(hero, center)), d.spawnPick, d.spawnCol);
      && At(r, t) == Some(Flame)
      && (forall p :: IsValidPosition(p) && p != t ==>
            (At(r, p).None? <==> Chained(b, Footprint(hero, center), p) || At(b, p).None?))
      && (forall p :: IsValidPosition(p) && p != t && !Chained(b, Footprint(hero, center), p) ==>
            At(r, p) == At(b, p))
  {
    var cleared := RemoveGems(b, Footprint(hero, center));
    if hero.id == FireMageId then SpawnFlameGem(cleared, d.spawnPick, d.spawnCol) else cleared
  }

  /** The board once a cast has settled: no empty cell, and every column ends
      with the gems that outlived the elimination, in their former order. */
  function ResolveBoard(b: Board, hero: Hero, center: Pos, d: Dice): (r: Board)
    requires ValidDice(d)
    ensures IsFull(r)
    ensures forall c :: 0 <= c < N ==>
      var survivors := Survivors(Column(AfterElimination(b, hero, center, d), c));
      Column(r, c)[N - |survivors|..] == survivors
  {
    GravityThenFill(AfterElimination(b, hero, center, d), d.refill);
    FillEmptySpaces(Settle(AfterElimination(b, hero, center, d)), d.refill)
  }

  /** A cast of any hero but the fire mage empties exactly the chained cells. */
  lemma PlainCastEmptiesChain(b: Board, hero: Hero, center: Pos, d: Dice)
    requires ValidDice(d) && IsFull(b) && hero.id != FireMageId
    ensures forall p :: IsValidPosition(p) ==>
      (At(AfterElimination(b, hero, center, d), p).None? <==> Chained(b, Footprint(hero, center), p))
  {
  }

  /** On a full board the fire mage's flame lands in a cell its own cast emptied. */
  lemma FlameLandsInChain(b: Board, hero: Hero, center: Pos, d: Dice)
    requires ValidDice(d) && IsFull(b) && hero.id == FireMageId
    requires |Footprint(hero, center)| > 0
    ensures exists p ::
      IsValidPosition(p) && Chained(b, Footprint(hero, center), p) && At(AfterElimination(b, hero, center, d), p) == Some(Flame)
  {
    var seeds := Footprint(hero, center);
    var cleared := RemoveGems(b, seeds);
    var s := seeds[0];
    assert s in seeds;
    assert At(cleared, s).None?;
    assert HasEmpty(cleared) by {
      assert cleared[s.row][s.col].None?;
    }
    var t := SpawnTarget(cleared, d.spawnPick, d.spawnCol);
    assert At(cleared, t).None?;
    assert Chained(b, seeds, t);
  }

  /** `x || fallback` on an optional number: absent and zero both fall back. */
  function JsOr(x: Option<int>, fallback: int): (r: int)
    ensures x.Some? && x.value != 0 ==> r == x.value
    ensures x.None? || x.value == 0 ==> r == fallback
  {
    if x.Some? && x.value != 0 then x.value else fallback
  }

  /** `minDamage || 500`: a configured non-zero bound, otherwise 500; never zero. */
  function MinDamage(l: Level): (r: int)
    ensures r != 0
    ensures r == DefaultMinDamage || l.minDamage == Some(r)
    ensures l.minDamage.None? ==> r == DefaultMinDamage
    ensures l.minDamage.Some? && l.minDamage.value != 0 ==> r == l.minDamage.value
  {
    JsOr(l.minDamage, DefaultMinDamage)
  }

  /** `maxDamage || 1000`: a configured non-zero bound, otherwise 1000; never zero. */
  function MaxDamage(l: Level): (r: int)
    ensures r != 0
    ensures r == DefaultMaxDamage || l.maxDamage == Some(r)
    ensures l.maxDamage.None? ==> r == DefaultMaxDamage
    ensures l.maxDamage.Some? && l.maxDamage.value != 0 ==> r == l.maxDamage.value
  {
    JsOr(l.maxDamage, DefaultMaxDamage)
  }

  /** The enemy's attack: uniform in `[min, max]` for a level, and in
      `[500, 999]` when no level was started. */
  function EnemyDamage(level: Option<Level>, u: real): (damage: int)
    requires UnitInterval(u)
    ensures level.None? ==> DefaultMinDamage <= damage < DefaultMaxDamage
    ensures level.Some? && MinDamage(level.value) <= MaxDamage(level.value) ==>
      MinDamage(level.value) <= damage <= MaxDamage(level.value)
    ensures level.Some? && MaxDamage(level.value) < MinDamage(level.value) ==>
      MaxDamage(level.value) < damage <= MinDamage(level.value)
  {
    match level
    case Some(l) => MinDamage(l) + Scale(u, MaxDamage(l) - MinDamage(l) + 1)
    case None => DefaultMinDamage + Scale(u, DefaultMaxDamage - DefaultMinDamage)
  }

  /** Every damage in a level's range is a possible attack. */
  lemma EnemyDamageReaches(l: Level, damage: int)
    requires MinDamage(l) <= damage <= MaxDamage(l)
    ensures exists u :: UnitInterval(u) && EnemyDamage(Some(l), u) == damage
  {
    ScaleReaches(MaxDamage(l) - MinDamage(l) + 1, damage - MinDamage(l));
    var u :| UnitInterval(u) && Scale(u, MaxDamage(l) - MinDamage(l) + 1) == damage - MinDamage(l);
    assert EnemyDamage(Some(l), u) == damage;
  }

  /** The enemy HP after a cast: only a positive damage lowers it, never below zero. */
  function StrikeEnemy(enemyHp: int, damage: int): (hp: int)
    ensures damage <= 0 ==> hp == enemyHp
    ensures damage > 0 ==> hp >= 0 && (hp == 0 <==> damage >= enemyHp)
    ensures damage > 0 && hp > 0 ==> hp == enemyHp - damage
    ensures enemyHp >= 0 ==> 0 <= hp <= enemyHp
  {
    if damage > 0 then (if enemyHp - damage > 0 then enemyHp - damage else 0) else enemyHp
  }

  /** The player HP after an attack, never below zero. */
  function HitPlayer(playerHp: int, damage: int): (hp: int)
    ensures hp >= 0
    ensures hp == 0 <==> damage >= playerHp
    ensures hp > 0 ==> hp == playerHp - damage
  {
    if playerHp - damage > 0 then playerHp - damage else 0
  }

  function EnemyMaxHp(level: Option<Level>): int {
    if level.Some? then level.value.enemyMaxHp else DefaultEnemyHp
  }

  function PlayerMaxHp(level: Option<Level>): int {
    if level.Some? then level.value.playerMaxHp else DefaultPlayerHp
  }

  /** `resetGame`: full HPs for the current level, the player's turn, no
      selection and a freshly drawn board. */
  function ResetGame(s: Session, redraw: seq<seq<Roll>>): (r: Session)
    requires ValidRolls(redraw)
    ensures IsFull(r.board)
    ensures forall p :: IsValidPosition(p) ==> IsDrawable(At(r.board, p).value)
    ensures r.enemyHp == EnemyMaxHp(r.level) && r.playerHp == PlayerMaxHp(r.level)
    ensures r.isPlayerTurn && !r.isSelectingArea && r.selectedHero.None?
    ensures r.level == s.level
  {
    Session(CreateBoard(redraw), EnemyMaxHp(s.level), PlayerMaxHp(s.level), true, false, None, s.level)
  }

  /** A reset forgets everything but the level. */
  lemma ResetForgetsHistory(s: Session, t: Session, redraw: seq<seq<Roll>>)
    requires ValidRolls(redraw) && s.level == t.level
    ensures ResetGame(s, redraw) == ResetGame(t, redraw)
  {
  }

  /** `startLevel`: the level's HPs and a freshly drawn board; the turn and
      selection flags are left as they were. */
  function StartLevel(s: Session, l: Level, rolls: seq<seq<Roll>>): (r: Session)
    requires ValidRolls(rolls)
    ensures r.level == Some(l)
    ensures IsFull(r.board)
    ensures forall p :: IsValidPosition(p) ==> IsDrawable(At(r.board, p).value)
    ensures r.enemyHp == EnemyMaxHp(r.level) && r.playerHp == PlayerMaxHp(r.level)
    ensures r.isPlayerTurn == s.isPlayerTurn && r.isSelectingArea == s.isSelectingArea
    ensures r.selectedHero == s.selectedHero
  {
    s.(level := Some(l), enemyHp := l.enemyMaxHp, playerHp := l.playerMaxHp, board := CreateBoard(rolls))
  }

  /** `handleHeroClick`: outside the player's turn nothing happens;
      otherwise the hero becomes the selection and area selection starts,
      and nothing else changes. */
  function HandleHeroClick(s: Session, heroId: nat): (r: Session)
    requires heroId < |Heroes|
    ensures !s.isPlayerTurn ==> r == s
    ensures s.isPlayerTurn ==> r.selectedHero == Some(heroId) && r.isSelectingArea
    ensures r.board == s.board && r.level == s.level && r.isPlayerTurn == s.isPlayerTurn
    ensures r.enemyHp == s.enemyHp && r.playerHp == s.playerHp
  {
    if !s.isPlayerTurn then s else s.(selectedHero := Some(heroId), isSelectingArea := true)
  }

  /** Only the last hero clicked counts. */
  lemma LastHeroClickWins(s: Session, first: nat, second: nat)
    requires first < |Heroes| && second < |Heroes|
    ensures HandleHeroClick(HandleHeroClick(s, first), second) == HandleHeroClick(s, second)
  {
  }

  /** `enemyTurn`: the enemy hits the player; a player at zero HP loses and
      the game resets, otherwise the turn passes back to the player. */
  function EnemyTurn(s: Session, u: real, redraw: seq<seq<Roll>>): (r: Session)
    requires UnitInterval(u) && ValidRolls(redraw)
    ensures var hit := EnemyDamage(s.level, u);
      && (hit >= s.playerHp ==> r == ResetGame(s, redraw))
      && (hit < s.playerHp ==> r == s.(playerHp := s.playerHp - hit, isPlayerTurn := true))
  {
    var hp := HitPlayer(s.playerHp, EnemyDamage(s.level, u));
    if hp <= 0 then ResetGame(s.(playerHp := hp, isPlayerTurn := false), redraw)
    else s.(playerHp := hp, isPlayerTurn := true)
  }

  /** `useHeroSkill`: the selected hero's cast resolves on the board; a
      killing blow resets the game, otherwise the selection is cleared and
      the enemy answers. */
  function UseHeroSkill(s: Session, center: Pos, d: Dice): (r: Session)
    requires s.selectedHero.Some? && s.selectedHero.value < |Heroes|
    requires ValidDice(d)
    ensures var hero := Heroes[s.selectedHero.value];
      var damage := CastDamage(s.board, hero, center);
      var hit := EnemyDamage(s.level, d.attack);
      && (damage > 0 && damage >= s.enemyHp ==> r == ResetGame(s, d.redraw))
      && (!(damage > 0 && damage >= s.enemyHp) && hit >= s.playerHp ==> r == ResetGame(s, d.redraw))
      && (!(damage > 0 && damage >= s.enemyHp) && hit < s.playerHp ==>
            && r.board == ResolveBoard(s.board, hero, center, d)
            && r.enemyHp == s.enemyHp - damage
            && r.playerHp == s.playerHp - hit
            && r.isPlayerTurn && !r.isSelectingArea && r.selectedHero.None?
            && r.level == s.level)
  {
    var hero := Heroes[s.selectedHero.value];
    var damage := CastDamage(s.board, hero, center);
    var enemyHp := StrikeEnemy(s.enemyHp, damage);
    var struck := s.(board := ResolveBoard(s.board, hero, center, d), enemyHp := enemyHp);
    if damage > 0 && enemyHp <= 0 then ResetGame(struck, d.redraw)
    else EnemyTurn(struck.(selectedHero := None, isSelectingArea := false), d.attack, d.redraw)
  }

  /** `handleGemClick`: ignored outside the player's turn, outside area
      selection and with no hero selected; otherwise the hero's skill is
      cast centred on the clicked cell. */
  function HandleGemClick(s: Session, row: int, col: int, d: Dice): (r: Session)
    requires s.selectedHero.Some? ==> s.selectedHero.value < |Heroes|
    requires ValidDice(d)
    ensures !s.isPlayerTurn || !s.isSelectingArea || s.selectedHero.None? ==> r == s
    ensures s.isPlayerTurn && s.isSelectingArea && s.selectedHero.Some? ==>
      r.isPlayerTurn && r.selectedHero.None? && !r.isSelectingArea && IsFull(r.board)
  {
    if !s.isPlayerTurn || !s.isSelectingArea || s.selectedHero.None? then s
    else UseHeroSkill(s, Pos(row, col), d)
  }

  /** A level the battle can be played on: positive HPs and a sane damage range. */
  predicate LevelOk(l: Level) {
    && l.enemyMaxHp > 0
    && l.playerMaxHp > 0
    && 0 <= MinDamage(l) <= MaxDamage(l)
  }

  /** The selection flags agree: area selection is on exactly when a hero is selected. */
  predicate SelectionOk(s: Session) {
    && (s.isSelectingArea <==> s.selectedHero.Some?)
    && (s.selectedHero.Some? ==> s.selectedHero.value < |Heroes|)
  }

  /** What holds between two clicks. */
  predicate Inv(s: Session) {
    && (s.level.Some? ==> LevelOk(s.level.value))
    && IsFull(s.board)
    && 0 < s.enemyHp <= EnemyMaxHp(s.level)
    && 0 < s.playerHp <= PlayerMaxHp(s.level)
    && s.isPlayerTurn
    && SelectionOk(s)
  }

  lemma StartLevelEstablishesInv(s: Session, l: Level, rolls: seq<seq<Roll>>)
    requires ValidRolls(rolls) && LevelOk(l)
    requires s.isPlayerTurn && SelectionOk(s)
    ensures Inv(StartLevel(s, l, rolls))
  {
  }

  lemma HeroClickKeepsInv(s: Session, heroId: nat)
    requires Inv(s) && heroId < |Heroes|
    ensures Inv(HandleHeroClick(s, heroId))
  {
  }

  /** A reset from a sane level lands in the invariant. */
  lemma ResetEstablishesInv(s: Session, redraw: seq<seq<Roll>>)
    requires ValidRolls(redraw)
    requires s.level.Some? ==> LevelOk(s.level.value)
    ensures Inv(ResetGame(s, redraw))
  {
  }

  /** Every gem click, whatever the draws, leads to a state where the
      invariant holds again: the enemy and the player are both alive, HPs
      never exceed their maxima and the board is full. */
  lemma GemClickKeepsInv(s: Session, row: int, col: int, d: Dice)
    requires Inv(s) && ValidDice(d)
    ensures Inv(HandleGemClick(s, row, col, d))
  {
    if s.isSelectingArea {
      CastKeepsInv(s, Pos(row, col), d);
    }
  }

  lemma CastKeepsInv(s: Session, center: Pos, d: Dice)
    requires Inv(s) && ValidDice(d) && s.selectedHero.Some?
    ensures Inv(UseHeroSkill(s, center, d))
  {
    var damage := CastDamage(s.board, Heroes[s.selectedHero.value], center);
    var hit := EnemyDamage(s.level, d.attack);
    var r := UseHeroSkill(s, center, d);
    if (damage > 0 && damage >= s.enemyHp) || hit >= s.playerHp {
      ResetEstablishesInv(s, d.redraw);
    } else {
      assert hit >= 0;
      assert IsFull(r.board);
      assert 0 < r.enemyHp <= s.enemyHp;
      assert 0 < r.playerHp <= s.playerHp;
    }
  }

  /** A 6x6 water board with a single fire gem at (2,2). */
  function LoneFire(): (b: Board)
    ensures forall p :: IsValidPosition(p) ==> At(b, p) == if p == Pos(2, 2) then Some(Fire) else Some(Water)
  {
    seq(N, r => seq(N, c => if r == 2 && c == 2 then Some(Fire) else Some(Water)))
  }

  /** The fire mage cast at (2,2) of `LoneFire` removes (2,1) and (2,2) and
      deals 150 damage. */
  lemma LoneFireDamage()
    ensures Footprint(Heroes[FireMageId], Pos(2, 2)) == [Pos(2, 1), Pos(2, 2)]
    ensures CastDamage(LoneFire(), Heroes[FireMageId], Pos(2, 2)) == 150
  {
    var hero := Heroes[FireMageId];
    SkillAreaExample();
    var seeds := Footprint(hero, Pos(2, 2));
    assert seeds == [Pos(2, 1), Pos(2, 2)];
    QuietSeeds(LoneFire(), seeds);
    var removed := Removed(LoneFire(), seeds);
    assert removed == {Pos(2, 1), Pos(2, 2)};
    assert MatchingGems(LoneFire(), removed, Fire) == {Pos(2, 2)};
  }

  /** A session waiting for the fire mage's area, on `LoneFire`, before any level. */
  predicate LoneFireSession(s: Session, enemyHp: int) {
    && s.board == LoneFire()
    && s.enemyHp == enemyHp
    && s.playerHp == DefaultPlayerHp
    && s.isPlayerTurn && s.isSelectingArea
    && s.selectedHero == Some(FireMageId)
    && s.level.None?
  }

  /** A gem click whose cast neither kills the enemy nor lets the enemy kill
      the player: both HPs drop by exactly the damage dealt, and the turn
      comes back to the player with no hero selected. */
  lemma OngoingGemClick(s: Session, row: int, col: int, d: Dice)
    requires ValidDice(d) && s.isPlayerTurn && s.isSelectingArea
    requires s.selectedHero.Some? && s.selectedHero.value < |Heroes|
    requires CastDamage(s.board, Heroes[s.selectedHero.value], Pos(row, col)) < s.enemyHp
    requires EnemyDamage(s.level, d.attack) < s.playerHp
    ensures var r := HandleGemClick(s, row, col, d);
      && r.enemyHp == s.enemyHp - CastDamage(s.board, Heroes[s.selectedHero.value], Pos(row, col))
      && r.playerHp == s.playerHp - EnemyDamage(s.level, d.attack)
      && r.isPlayerTurn && r.selectedHero.None? && !r.isSelectingArea
  {
  }

  /** 150 damage against 151 HP leaves the enemy at 1 and the enemy strikes back. */
  lemma LoneFireSurvives(s: Session, d: Dice)
    requires ValidDice(d) && LoneFireSession(s, 151)
    ensures var r := HandleGemClick(s, 2, 2, d);
      r.enemyHp == 1 && 9000 < r.playerHp <= 9500 && r.isPlayerTurn && r.selectedHero.None?
  {
    LoneFireDamage();
    OngoingGemClick(s, 2, 2, d);
  }

  /** The same cast against 150 HP is a victory, and the game resets. */
  lemma LoneFireWins(s: Session, d: Dice)
    requires ValidDice(d) && LoneFireSession(s, 150)
    ensures HandleGemClick(s, 2, 2, d) == ResetGame(s, d.redraw)
  {
    LoneFireDamage();
    assert CastDamage(s.board, Heroes[FireMageId], Pos(2, 2)) == 150;
  }
}
