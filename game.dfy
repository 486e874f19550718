/** The simulation state of one game session and the per-frame operations
    that change it: player movement through the collision gate, pickup
    collection, firing, enemy attacks, projectile flight, damage, death,
    drops and replacement spawns.

    Wall-clock times arrive as the parameter now (milliseconds), draws of
    Math.random() as reals, and every floating-point distance test as a
    boolean. */
module Game {
  import opened Grid
  import opened Entities
  import opened Spawn

  const MaxHealth: int := 100
  const MaxAmmo: int := 100
  const StartAmmo: int := 50
  /** Milliseconds between two shots. */
  const ShootDelay: int := 250
  /** Damage of one projectile hit. */
  const PlayerDamage: int := 25
  /** How far ahead of the destination the collision gate probes. */
  const Margin: real := 0.2
  /** The number of enemies alive at any time: the initial roster. */
  const RosterSize: int := 5

  /** Math.sign. */
  function Sign(d: real): (s: real)
    ensures s == 0.0 <==> d == 0.0
    ensures s > 0.0 <==> d > 0.0
  {
    if d > 0.0 then 1.0 else if d < 0.0 then -1.0 else 0.0
  }

  /** The enemy appended by spawnNewEnemy while the player stands at
      (px, py): a fresh enemy on a whole-numbered valid spawn cell. */
  predicate IsReplacement(g: seq<seq<int>>, e: Enemy, px: real, py: real)
    requires Rectangular(g)
  {
    && e == NewEnemy(e.x, e.y)
    && e.x == e.x.Floor as real && e.y == e.y.Floor as real
    && SpawnValid(g, e.x.Floor, e.y.Floor, px, py)
  }

  /** Every enemy of es is a replacement spawned while the player stood
      at (px, py). */
  predicate AllReplacements(g: seq<seq<int>>, es: seq<Enemy>, px: real, py: real)
    requires Rectangular(g)
  {
    es == [] || (AllReplacements(g, es[..|es| - 1], px, py) && IsReplacement(g, es[|es| - 1], px, py))
  }

  /** AllReplacements says it of every element. */
  lemma {:induction false} AllReplacementsEach(g: seq<seq<int>>, es: seq<Enemy>, px: real, py: real)
    requires Rectangular(g)
    ensures AllReplacements(g, es, px, py) <==> forall m :: 0 <= m < |es| ==> IsReplacement(g, es[m], px, py)
  {
    if es != [] {
      var last := |es| - 1;
      AllReplacementsEach(g, es[..last], px, py);
      assert forall m :: 0 <= m < last ==> es[..last][m] == es[m];
    }
  }

  /** Appending one replacement keeps a run of replacements. */
  lemma AllReplacementsSnoc(g: seq<seq<int>>, es: seq<Enemy>, e: Enemy, px: real, py: real)
    requires Rectangular(g) && AllReplacements(g, es, px, py) && IsReplacement(g, e, px, py)
    ensures AllReplacements(g, es + [e], px, py)
  {
    assert (es + [e])[..|es|] == es;
  }

  /** The state of one projectile's enemy pass over the roster e0 after
      its first i enemies: those are struck in place, the rest untouched,
      spawned holds the replacements of the i enemies' deaths, and kills
      and pickups have grown by those deaths and their drops. */
  ghost predicate PassedPrefix(g: seq<seq<int>>, e0: seq<Enemy>, hit: nat -> bool, roll: nat -> real, i: nat,
                               es: seq<Enemy>, spawned: seq<Enemy>, pk0: seq<Pickup>, pk: seq<Pickup>,
                               k0: int, k: int, px: real, py: real)
    requires Rectangular(g)
  {
    && i <= |e0|
    && es == Strike(e0[..i], hit, PlayerDamage) + e0[i..] + spawned
    && |spawned| == Kills(e0[..i], hit, PlayerDamage)
    && AllReplacements(g, spawned, px, py)
    && k == k0 + Kills(e0[..i], hit, PlayerDamage)
    && pk == pk0 + Drops(e0[..i], hit, roll, PlayerDamage)
  }

  /** Before the pass, nothing is struck, spawned, killed or dropped. */
  lemma PassedStart(g: seq<seq<int>>, e0: seq<Enemy>, hit: nat -> bool, roll: nat -> real,
                    pk0: seq<Pickup>, k0: int, px: real, py: real)
    requires Rectangular(g)
    ensures PassedPrefix(g, e0, hit, roll, 0, e0, [], pk0, pk0, k0, k0, px, py)
  {
    assert e0[..0] == [] && e0[0..] == e0;
    assert Strike(e0[..0], hit, PlayerDamage) + e0[0..] + [] == e0;
    assert pk0 + Drops(e0[..0], hit, roll, PlayerDamage) == pk0;
  }

  /** Midway through the pass, the next enemy is still as it was. */
  lemma PassedAt(g: seq<seq<int>>, e0: seq<Enemy>, hit: nat -> bool, roll: nat -> real, i: nat,
                 es: seq<Enemy>, spawned: seq<Enemy>, pk0: seq<Pickup>, pk: seq<Pickup>,
                 k0: int, k: int, px: real, py: real)
    requires Rectangular(g) && i < |e0|
    requires PassedPrefix(g, e0, hit, roll, i, es, spawned, pk0, pk, k0, k, px, py)
    ensures |es| == |e0| + |spawned| && es[i] == e0[i]
  {
    StrikeStep(e0, hit, PlayerDamage, i, spawned);
  }

  /** One enemy of the pass: striking enemy i, which appends a replacement
      exactly when it dies, extends the passed prefix by one. */
  lemma PassStep(g: seq<seq<int>>, e0: seq<Enemy>, hit: nat -> bool, roll: nat -> real, i: nat,
                 es: seq<Enemy>, spawned: seq<Enemy>, pk0: seq<Pickup>, pk: seq<Pickup>, k0: int, k: int,
                 es': seq<Enemy>, pk': seq<Pickup>, k': int, px: real, py: real)
    returns (spawned': seq<Enemy>)
    requires Rectangular(g) && i < |e0|
    requires PassedPrefix(g, e0, hit, roll, i, es, spawned, pk0, pk, k0, k, px, py)
    requires !Killed(e0[i], hit(i), PlayerDamage) ==>
      es' == es[i := Struck(e0[i], hit(i), PlayerDamage)] && k' == k && pk' == pk
    requires Killed(e0[i], hit(i), PlayerDamage) ==>
      && |es'| == |es| + 1
      && es' == es[i := Struck(e0[i], hit(i), PlayerDamage)] + [es'[|es|]]
      && IsReplacement(g, es'[|es|], px, py)
      && k' == k + 1
      && pk' == pk + Drop(e0[i], roll(i))
    ensures PassedPrefix(g, e0, hit, roll, i + 1, es', spawned', pk0, pk', k0, k', px, py)
  {
    KillsStep(e0, hit, roll, PlayerDamage, i);
    StrikeStep(e0, hit, PlayerDamage, i, spawned);
    var s1 := Strike(e0[..i + 1], hit, PlayerDamage) + e0[i + 1..];
    if Killed(e0[i], hit(i), PlayerDamage) {
      var e := es'[|es|];
      AllReplacementsSnoc(g, spawned, e, px, py);
      spawned' := spawned + [e];
      assert es' == s1 + spawned';
      assert pk' == pk0 + Drops(e0[..i + 1], hit, roll, PlayerDamage);
    } else {
      spawned' := spawned;
    }
  }

  /** A finished pass: the original roster struck in place, followed by
      the replacements, and no dead enemy of e0 has changed. */
  lemma PassedAll(g: seq<seq<int>>, e0: seq<Enemy>, hit: nat -> bool, roll: nat -> real,
                  es: seq<Enemy>, spawned: seq<Enemy>, pk0: seq<Pickup>, pk: seq<Pickup>,
                  k0: int, k: int, px: real, py: real)
    requires Rectangular(g)
    requires PassedPrefix(g, e0, hit, roll, |e0|, es, spawned, pk0, pk, k0, k, px, py)
    ensures |es| == |e0| + Kills(e0, hit, PlayerDamage)
    ensures es[..|e0|] == Strike(e0, hit, PlayerDamage)
    ensures AllReplacements(g, es[|e0|..], px, py)
    ensures k == k0 + Kills(e0, hit, PlayerDamage)
    ensures pk == pk0 + Drops(e0, hit, roll, PlayerDamage)
    ensures DeadStayDead(e0, es)
  {
    assert e0[..|e0|] == e0;
    assert es[|e0|..] == spawned;
    assert es[..|e0|] == Strike(e0, hit, PlayerDamage);
    StrikeEach(e0, hit, PlayerDamage);
  }

  /** What the projectile pass has changed so far: the roster, the kill
      count and the pickups on the ground. */
  datatype Snapshot = Snapshot(enemies: seq<Enemy>, kills: int, pickups: seq<Pickup>)

  /** One projectile's update, ending at q, takes the state from before to
      after, hit(k) and roll(k) being its tests and draws against enemy k:
      in a wall cell it ends and changes nothing; in an empty cell it
      survives exactly when no live enemy was in range, each original
      enemy is struck or left alone on its own, and each death adds one
      kill, its drop and one replacement. */
  ghost predicate ProjectileStep(g: seq<seq<int>>, q: Projectile, before: Snapshot, after: Snapshot,
                                 hit: nat -> bool, roll: nat -> real, px: real, py: real)
    requires Rectangular(g)
  {
    if !Open(g, q.x, q.y) then !q.isActive && after == before
    else
      && (q.isActive <==> !AnyStruck(before.enemies, hit))
      && |after.enemies| == |before.enemies| + Kills(before.enemies, hit, PlayerDamage)
      && after.enemies[..|before.enemies|] == Strike(before.enemies, hit, PlayerDamage)
      && AllReplacements(g, after.enemies[|before.enemies|..], px, py)
      && after.kills == before.kills + Kills(before.enemies, hit, PlayerDamage)
      && after.pickups == before.pickups + Drops(before.enemies, hit, roll, PlayerDamage)
  }

  /** A projectile that reaches an empty cell with no enemy in range
      flies on. */
  lemma NothingInRangeSurvives(g: seq<seq<int>>, q: Projectile, before: Snapshot, after: Snapshot,
                               hit: nat -> bool, roll: nat -> real, px: real, py: real)
    requires Rectangular(g) && ProjectileStep(g, q, before, after, hit, roll, px, py)
    requires Open(g, q.x, q.y) && forall k :: !hit(k)
    ensures q.isActive && after == before
  {
    NoneStruck(before.enemies, hit, roll, PlayerDamage);
    assert after.enemies == after.enemies[..|before.enemies|];
  }

  /** The state of the projectile filter over the projectiles p0 after
      its first j: results holds each of them after its update, kept the
      updated ones still active, each inside an empty cell, and states the
      state before each update followed by the state after the last. */
  ghost predicate Filtered(g: seq<seq<int>>, p0: seq<Projectile>, heading: nat -> Heading,
                           hit: nat -> nat -> bool, roll: nat -> nat -> real, j: nat,
                           results: seq<Projectile>, kept: seq<Projectile>, states: seq<Snapshot>,
                           px: real, py: real)
    requires Rectangular(g)
    requires forall k :: UnitBounded(heading(k))
  {
    && j <= |p0| && |results| == j && |states| == j + 1
    && (forall k :: 0 <= k < j ==> results[k].(isActive := true) == Advanced(p0[k], heading(k)))
    && (forall k :: 0 <= k < j ==> !Open(g, results[k].x, results[k].y) ==> !results[k].isActive)
    && (forall k :: 0 <= k < j ==> ProjectileStep(g, results[k], states[k], states[k + 1], hit(k), roll(k), px, py))
    && kept == Active(results)
    && (forall k :: 0 <= k < |kept| ==> kept[k].isActive && Open(g, kept[k].x, kept[k].y))
  }

  /** One projectile through the filter: its update q, which took the
      state to after, is recorded, and q is kept exactly when still
      active. */
  lemma FilteredStep(g: seq<seq<int>>, p0: seq<Projectile>, heading: nat -> Heading,
                     hit: nat -> nat -> bool, roll: nat -> nat -> real, j: nat,
                     results: seq<Projectile>, kept: seq<Projectile>, states: seq<Snapshot>,
                     q: Projectile, after: Snapshot, px: real, py: real)
    requires Rectangular(g) && forall k :: UnitBounded(heading(k))
    requires Filtered(g, p0, heading, hit, roll, j, results, kept, states, px, py) && j < |p0|
    requires q.(isActive := true) == Advanced(p0[j], heading(j))
    requires q.isActive ==> Open(g, q.x, q.y)
    requires ProjectileStep(g, q, states[j], after, hit(j), roll(j), px, py)
    ensures Filtered(g, p0, heading, hit, roll, j + 1, results + [q], kept + (if q.isActive then [q] else []),
                     states + [after], px, py)
  {
    var results' := results + [q];
    var kept' := kept + (if q.isActive then [q] else []);
    var states' := states + [after];
    assert results'[..j] == results;
    assert Active(results') == kept';
    assert forall k :: 0 <= k < j ==> results'[k] == results[k];
    assert forall k :: 0 <= k < |kept| ==> kept'[k] == kept[k];
    forall k | 0 <= k < j + 1
      ensures ProjectileStep(g, results'[k], states'[k], states'[k + 1], hit(k), roll(k), px, py)
    {
      if k < j {
        assert results'[k] == results[k] && states'[k] == states[k] && states'[k + 1] == states[k + 1];
      }
    }
  }

  /** The state of the enemy pass of updateGame over the roster e0 after
      its first i enemies: those are updated, the rest untouched, and the
      player's health has taken, floored at 0, the strikes so far. */
  ghost predicate EnemiesUpdated(e0: seq<Enemy>, approaches: seq<Approach>, now: int, i: nat,
                                 es: seq<Enemy>, h0: int, health: int)
  {
    && i <= |e0| == |approaches| == |es|
    && (forall k :: 0 <= k < i ==> es[k] == Updated(e0[k], approaches[k], now))
    && (forall k :: i <= k < |es| ==> es[k] == e0[k])
    && health == Max(0, h0 - EnemyDamage * StrikeCount(e0[..i], approaches[..i], now))
  }

  /** One enemy of the pass: updating enemy i extends the updated prefix. */
  lemma EnemiesUpdatedStep(e0: seq<Enemy>, approaches: seq<Approach>, now: int, i: nat,
                           es: seq<Enemy>, h0: int, health: int, es': seq<Enemy>, health': int)
    requires EnemiesUpdated(e0, approaches, now, i, es, h0, health) && i < |e0|
    requires es' == es[i := Updated(es[i], approaches[i], now)]
    requires health' == if Attacks(es[i], approaches[i], now) then Max(0, health - EnemyDamage) else health
    ensures EnemiesUpdated(e0, approaches, now, i + 1, es', h0, health')
  {
    assert e0[..i + 1][..i] == e0[..i] && approaches[..i + 1][..i] == approaches[..i];
    MaxFloored(h0 - EnemyDamage * StrikeCount(e0[..i], approaches[..i], now), EnemyDamage);
  }

  /** The state of the pickup filter over ps after its first i pickups:
      kept holds those out of range, and health and ammo have absorbed,
      capped, the packs collected so far from h0 and a0. */
  ghost predicate Gathered(ps: seq<Pickup>, inRange: seq<bool>, i: nat, kept: seq<Pickup>,
                           h0: int, a0: int, health: int, ammo: int)
  {
    && i <= |ps| == |inRange|
    && kept == Uncollected(ps[..i], inRange[..i])
    && health == Min(MaxHealth, h0 + 25 * CollectedCount(ps[..i], inRange[..i], HealthPack))
    && ammo == Min(MaxAmmo, a0 + 15 * CollectedCount(ps[..i], inRange[..i], AmmoPack))
  }

  /** One pickup through the filter: collected when in range, kept
      otherwise. */
  lemma GatheredStep(ps: seq<Pickup>, inRange: seq<bool>, i: nat, kept: seq<Pickup>,
                     h0: int, a0: int, health: int, ammo: int, health': int, ammo': int)
    requires Gathered(ps, inRange, i, kept, h0, a0, health, ammo) && i < |ps|
    requires inRange[i] ==> (health', ammo') == Collected(ps[i], health, ammo, MaxHealth, MaxAmmo)
    requires !inRange[i] ==> health' == health && ammo' == ammo
    ensures Gathered(ps, inRange, i + 1, kept + (if inRange[i] then [] else [ps[i]]), h0, a0, health', ammo')
  {
    PickupPrefixStep(ps, inRange, i);
    var healed := CollectedCount(ps[..i], inRange[..i], HealthPack);
    var restocked := CollectedCount(ps[..i], inRange[..i], AmmoPack);
    MinCapped(MaxHealth, h0 + 25 * healed, 25);
    MinCapped(MaxAmmo, a0 + 15 * restocked, 15);
  }

  /** The five enemies a session starts with. */
  const InitialRoster: seq<Enemy> := [NewEnemy(5.0, 5.0), NewEnemy(12.0, 3.0), NewEnemy(3.0, 10.0),
                                      NewEnemy(10.0, 8.0), NewEnemy(14.0, 11.0)]

  /** The initial roster is RosterSize live enemies. */
  lemma InitialRosterAlive()
    ensures |InitialRoster| == RosterSize && AliveCount(InitialRoster) == RosterSize
    ensures AllHealthy(InitialRoster)
  {
    var r := InitialRoster;
    for k := 0 to |r|
      invariant AliveCount(r[..k]) == k && AllHealthy(r[..k])
    {
      AliveCountSnoc(r[..k], r[k]);
      AllHealthySnoc(r[..k], r[k]);
      assert r[..k] + [r[k]] == r[..k + 1];
    }
    assert r[..|r|] == r;
  }

  class GameState {
    const worldMap: seq<seq<int>>
    /** The player: position in cell units, facing angle, and status. */
    var x: real
    var y: real
    var direction: real
    var health: int
    var ammo: int
    var kills: int
    var lastShot: int
    var enemies: seq<Enemy>
    var pickups: seq<Pickup>
    var projectiles: seq<Projectile>

    /** The invariant every operation keeps: health and ammo within their
        bounds, the player in an empty cell, always RosterSize live enemies
        (each kill appends exactly one replacement, so kills counts the
        dead ones), live enemies have positive health, and every projectile
        in flight is active and inside an empty cell. */
    ghost predicate Valid()
      reads this
    {
      && ValidMap(worldMap) && HasSpawnCorners(worldMap)
      && 0 <= health <= MaxHealth
      && 0 <= ammo <= MaxAmmo
      && Open(worldMap, x, y)
      && AliveCount(enemies) == RosterSize
      && kills + RosterSize == |enemies|
      && AllHealthy(enemies)
      && (forall k :: 0 <= k < |projectiles| ==>
            projectiles[k].isActive && Open(worldMap, projectiles[k].x, projectiles[k].y))
    }

    /** A new session: the player at (2, 2) facing angle 0 with full health
        and 50 rounds, and the five enemies of the initial roster. */
    constructor ()
      ensures Valid()
      ensures worldMap == WorldMap
      ensures x == 2.0 && y == 2.0 && direction == 0.0
      ensures health == MaxHealth && ammo == StartAmmo && kills == 0 && lastShot == 0
      ensures enemies == InitialRoster
      ensures pickups == [] && projectiles == []
    {
      worldMap := WorldMap;
      x, y, direction := 2.0, 2.0, 0.0;
      health, ammo, kills, lastShot := MaxHealth, StartAmmo, 0, 0;
      pickups, projectiles := [], [];
      WorldMapValid();
      enemies := InitialRoster;
      InitialRosterAlive();
    }

    /** Player.rotate. */
    method Rotate(angle: real)
      modifies this`direction
      ensures direction == old(direction) + angle
    {
      direction := direction + angle;
    }

    /** Player.move, given the displacement (dx, dy) that the trigonometry
        of the source produces. The move is taken only when both the
        destination cell and the cell of the probe point, Margin further
        along the sign of the displacement on each axis, are empty; it is
        all or nothing, with no sliding along walls. */
    method Move(dx: real, dy: real) returns (moved: bool)
      requires Valid()
      requires -0.8 < dx < 0.8 && -0.8 < dy < 0.8
      modifies this`x, this`y
      ensures Valid()
      ensures var newX, newY := old(x) + dx, old(y) + dy;
        moved == (Open(worldMap, newX, newY)
                  && Open(worldMap, newX + Margin * Sign(dx), newY + Margin * Sign(dy)))
      ensures moved ==> x == old(x) + dx && y == old(y) + dy
      ensures !moved ==> x == old(x) && y == old(y)
    {
      var newX, newY := x + dx, y + dy;
      var probeX, probeY := newX + Margin * Sign(newX - x), newY + Margin * Sign(newY - y);
      NearOpenInBounds(worldMap, x, y, newX, newY);
      NearOpenInBounds(worldMap, x, y, probeX, probeY);
      if worldMap[newY.Floor][newX.Floor] == 0 && worldMap[probeY.Floor][probeX.Floor] == 0 {
        x, y := newX, newY;
        moved := true;
      } else {
        moved := false;
      }
    }

    /** Pickup.collect: a health pickup heals, any other adds ammo, each
        clamped to its maximum; collecting always succeeds. */
    method Collect(p: Pickup) returns (collected: bool)
      requires Valid()
      modifies this`health, this`ammo
      ensures Valid()
      ensures collected
      ensures (health, ammo) == Collected(p, old(health), old(ammo), MaxHealth, MaxAmmo)
    {
      if p.kind == HealthPack {
        health := Min(MaxHealth, health + p.amount);
      } else {
        ammo := Min(MaxAmmo, ammo + p.amount);
      }
      collected := true;
    }

    /** The callback of the pickup filter in updatePlayer for one pickup,
        given whether it lies within 0.5 of the player: a pickup in range
        is collected and dropped, any other is kept untouched. */
    method KeepPickup(p: Pickup, near: bool) returns (keep: bool)
      requires Valid()
      modifies this`health, this`ammo
      ensures Valid()
      ensures keep == !near
      ensures near ==> (health, ammo) == Collected(p, old(health), old(ammo), MaxHealth, MaxAmmo)
      ensures !near ==> health == old(health) && ammo == old(ammo)
    {
      if near {
        var collected := Collect(p);
        return !collected;
      }
      return true;
    }

    /** The pickup filter of updatePlayer: every pickup in range (the
        distance test below 0.5 from the player) is collected and removed,
        every other one stays. */
    method CollectPickups(inRange: seq<bool>)
      requires Valid() && |inRange| == |pickups|
      modifies this`pickups, this`health, this`ammo
      ensures Valid()
      ensures pickups == Uncollected(old(pickups), inRange)
      ensures health == Min(MaxHealth, old(health) + 25 * CollectedCount(old(pickups), inRange, HealthPack))
      ensures ammo == Min(MaxAmmo, old(ammo) + 15 * CollectedCount(old(pickups), inRange, AmmoPack))
    {
      var kept: seq<Pickup> := [];
      var ps := pickups;
      var i := 0;
      assert ps[..0] == [] && inRange[..0] == [];
      while i < |ps|
        invariant pickups == ps
        invariant Valid()
        invariant Gathered(ps, inRange, i, kept, old(health), old(ammo), health, ammo)
      {
        ghost var h, a := health, ammo;
        var keep := KeepPickup(ps[i], inRange[i]);
        GatheredStep(ps, inRange, i, kept, old(health), old(ammo), h, a, health, ammo);
        if keep {
          kept := kept + [ps[i]];
        }
        i := i + 1;
      }
      assert ps[..i] == ps && inRange[..i] == inRange;
      pickups := kept;
    }

    /** shoot: fires only with ammo left and the cooldown elapsed; a shot
        appends one projectile at the player's position and facing, spends
        one round and restarts the cooldown. */
    method Shoot(now: int) returns (fired: bool)
      requires Valid()
      modifies this`projectiles, this`ammo, this`lastShot
      ensures Valid()
      ensures fired == (old(ammo) > 0 && now - old(lastShot) > ShootDelay)
      ensures fired ==> projectiles == old(projectiles) + [Projectile(x, y, direction, true)]
                        && ammo == old(ammo) - 1 && lastShot == now
      ensures !fired ==> projectiles == old(projectiles) && ammo == old(ammo) && lastShot == old(lastShot)
    {
      fired := false;
      if ammo > 0 && now - lastShot > ShootDelay {
        projectiles := projectiles + [Projectile(x, y, direction, true)];
        ammo := ammo - 1;
        lastShot := now;
        fired := true;
      }
    }

    /** Enemy.update for enemy i: a dead enemy does nothing; a live one
        chases the player and, in reach with its cooldown elapsed, deals
        EnemyDamage, with the player's health floored at 0. */
    method UpdateEnemy(i: nat, a: Approach, now: int)
      requires Valid() && i < |enemies|
      modifies this`enemies, this`health
      ensures Valid()
      ensures enemies == old(enemies)[i := Updated(old(enemies[i]), a, now)]
      ensures health == if Attacks(old(enemies[i]), a, now) then Max(0, old(health) - EnemyDamage) else old(health)
      ensures DeadStayDead(old(enemies), enemies)
    {
      var e := enemies[i];
      if !e.isAlive {
        return;
      }
      if a.beyondStandoff {
        e := e.(x := a.nextX, y := a.nextY);
      }
      if a.inReach && now - e.lastAttack > AttackDelay {
        health := health - EnemyDamage;
        e := e.(lastAttack := now);
        health := Max(0, health);
      }
      AliveCountUpdate(enemies, i, e);
      AllHealthyEach(enemies);
      AllHealthyUpdate(enemies, i, e);
      enemies := enemies[i := e];
    }

    /** The enemy pass of updateGame: every enemy updated once, in order. */
    method UpdateEnemies(approaches: seq<Approach>, now: int)
      requires Valid() && |approaches| == |enemies|
      modifies this`enemies, this`health
      ensures Valid()
      ensures |enemies| == |old(enemies)|
      ensures forall k :: 0 <= k < |enemies| ==> enemies[k] == Updated(old(enemies[k]), approaches[k], now)
      ensures health == Max(0, old(health) - EnemyDamage * StrikeCount(old(enemies), approaches, now))
      ensures DeadStayDead(old(enemies), enemies)
    {
      var i := 0;
      assert old(enemies)[..0] == [] && approaches[..0] == [];
      while i < |enemies|
        invariant Valid()
        invariant EnemiesUpdated(old(enemies), approaches, now, i, enemies, old(health), health)
      {
        ghost var es, h := enemies, health;
        UpdateEnemy(i, approaches[i], now);
        EnemiesUpdatedStep(old(enemies), approaches, now, i, es, old(health), h, enemies, health);
        i := i + 1;
      }
      assert old(enemies)[..i] == old(enemies) && approaches[..i] == approaches;
    }

    /** spawnNewEnemy: appends one fresh enemy on a valid spawn cell. */
    method SpawnNewEnemy() returns (e: Enemy)
      requires ValidMap(worldMap) && HasSpawnCorners(worldMap)
      modifies this`enemies
      ensures enemies == old(enemies) + [e]
      ensures IsReplacement(worldMap, e, x, y)
    {
      var cx, cy := GetSpawnPosition(worldMap, x, y);
      e := NewEnemy(cx as real, cy as real);
      enemies := enemies + [e];
    }

    /** Enemy.takeDamage for enemy i. Health drops by exactly damage; when
        it reaches 0 or below the enemy dies, the kill counter goes up by
        one, draw r decides the drop, and one replacement enemy appears.
        The invariant survives only when the target was alive, which is
        why Projectile.update damages live enemies only. */
    method TakeDamage(i: nat, damage: int, r: real)
      requires Valid() && i < |enemies|
      modifies this`enemies, this`pickups, this`kills
      ensures old(enemies[i]).isAlive ==> Valid() && DeadStayDead(old(enemies), enemies)
      ensures var e, n := old(enemies[i]), |old(enemies)|;
        if e.health - damage > 0 then
          && enemies == old(enemies)[i := Damaged(e, damage)]
          && pickups == old(pickups) && kills == old(kills)
        else
          && |enemies| == n + 1
          && enemies == old(enemies)[i := Damaged(e, damage)] + [enemies[n]]
          && !enemies[i].isAlive
          && IsReplacement(worldMap, enemies[n], x, y)
          && kills == old(kills) + 1
          && pickups == old(pickups) + Drop(e, r)
    {
      var e := enemies[i];
      var hurt := Damaged(e, damage);
      AliveCountUpdate(enemies, i, hurt);
      if e.isAlive {
        AllHealthyUpdate(enemies, i, hurt);
        DeadStayDeadUpdate(enemies, i, hurt, []);
        assert enemies[i := hurt] + [] == enemies[i := hurt];
      }
      enemies := enemies[i := hurt];
      if hurt.health <= 0 {
        kills := kills + 1;
        if r < 0.3 {
          pickups := pickups + [Pickup(e.x, e.y, HealthPack)];
        } else if r < 0.6 {
          pickups := pickups + [Pickup(e.x, e.y, AmmoPack)];
        }
        var replacement := SpawnNewEnemy();
        AliveCountSnoc(old(enemies)[i := hurt], replacement);
        if e.isAlive {
          AllHealthySnoc(old(enemies)[i := hurt], replacement);
          DeadStayDeadUpdate(old(enemies), i, hurt, [replacement]);
        }
      }
    }

    /** The forEach callback of Projectile.update for enemy i, struck telling
        whether it lies within 0.5 of the projectile: a live enemy in range
        takes PlayerDamage (with all that follows from its death), any
        other enemy is left alone. Returns whether the projectile hit. */
    method StrikeEnemy(i: nat, struck: bool, r: real) returns (hitAlive: bool)
      requires Valid() && i < |enemies|
      modifies this`enemies, this`pickups, this`kills
      ensures Valid()
      ensures hitAlive == (old(enemies[i]).isAlive && struck)
      ensures !Killed(old(enemies[i]), struck, PlayerDamage) ==>
        && enemies == old(enemies)[i := Struck(old(enemies[i]), struck, PlayerDamage)]
        && kills == old(kills) && pickups == old(pickups)
      ensures Killed(old(enemies[i]), struck, PlayerDamage) ==>
        && |enemies| == |old(enemies)| + 1
        && enemies == old(enemies)[i := Struck(old(enemies[i]), struck, PlayerDamage)] + [enemies[|old(enemies)|]]
        && IsReplacement(worldMap, enemies[|old(enemies)|], x, y)
        && kills == old(kills) + 1
        && pickups == old(pickups) + Drop(old(enemies[i]), r)
    {
      hitAlive := enemies[i].isAlive && struck;
      if hitAlive {
        TakeDamage(i, PlayerDamage, r);
      }
    }

    /** One enemy of the pass below: enemy i of the roster e0 the pass
        started from is struck, extending the passed prefix by one. Returns
        whether it was a live enemy in range. */
    method PassOne(ghost e0: seq<Enemy>, hit: nat -> bool, roll: nat -> real, i: nat, anyHit: bool,
                   ghost spawned: seq<Enemy>, ghost pk0: seq<Pickup>, ghost k0: int)
      returns (anyHit': bool, ghost spawned': seq<Enemy>)
      requires Valid() && i < |e0| && anyHit == AnyStruck(e0[..i], hit)
      requires PassedPrefix(worldMap, e0, hit, roll, i, enemies, spawned, pk0, pickups, k0, kills, x, y)
      modifies this`enemies, this`pickups, this`kills
      ensures Valid()
      ensures anyHit' == AnyStruck(e0[..i + 1], hit)
      ensures PassedPrefix(worldMap, e0, hit, roll, i + 1, enemies, spawned', pk0, pickups, k0, kills, x, y)
    {
      PassedAt(worldMap, e0, hit, roll, i, enemies, spawned, pk0, pickups, k0, kills, x, y);
      KillsStep(e0, hit, roll, PlayerDamage, i);
      ghost var before, pk, k := enemies, pickups, kills;
      var struck := StrikeEnemy(i, hit(i), roll(i));
      anyHit' := anyHit || struck;
      spawned' := PassStep(worldMap, e0, hit, roll, i, before, spawned, pk0, pk, k0, k, enemies, pickups, kills, x, y);
    }

    /** The enemy pass of Projectile.update, from a projectile position
        inside an empty cell: every enemy alive when it is reached and in
        range (hit(k)) takes PlayerDamage, in place. Returns whether any was
        hit. Each enemy that dies adds one kill, its drop and one
        replacement, in enemy order; the replacements appended during the
        pass are not visited, as forEach visits only the original length. */
    method HitEnemies(hit: nat -> bool, roll: nat -> real) returns (anyHit: bool)
      requires Valid()
      modifies this`enemies, this`pickups, this`kills
      ensures Valid()
      ensures anyHit == AnyStruck(old(enemies), hit)
      ensures |enemies| == |old(enemies)| + Kills(old(enemies), hit, PlayerDamage)
      ensures enemies[..|old(enemies)|] == Strike(old(enemies), hit, PlayerDamage)
      ensures AllReplacements(worldMap, enemies[|old(enemies)|..], x, y)
      ensures kills == old(kills) + Kills(old(enemies), hit, PlayerDamage)
      ensures pickups == old(pickups) + Drops(old(enemies), hit, roll, PlayerDamage)
      ensures DeadStayDead(old(enemies), enemies)
    {
      anyHit := false;
      var n := |enemies|;
      var i := 0;
      ghost var spawned: seq<Enemy> := [];
      PassedStart(worldMap, enemies, hit, roll, pickups, kills, x, y);
      assert old(enemies)[..0] == [];
      while i < n
        invariant 0 <= i <= n == |old(enemies)|
        invariant Valid()
        invariant anyHit == AnyStruck(old(enemies)[..i], hit)
        invariant PassedPrefix(worldMap, old(enemies), hit, roll, i, enemies, spawned,
                               old(pickups), pickups, old(kills), kills, x, y)
      {
        anyHit, spawned := PassOne(old(enemies), hit, roll, i, anyHit, spawned, old(pickups), old(kills));
        i := i + 1;
      }
      assert old(enemies)[..i] == old(enemies);
      PassedAll(worldMap, old(enemies), hit, roll, enemies, spawned, old(pickups), pickups, old(kills), kills, x, y);
    }

    /** Projectile.update for projectile p, with the cosine and sine of its
        direction, hit(k) the distance test against enemy k and roll(k) the
        draw used if enemy k dies. An inactive projectile does nothing. An
        active one moves one step; entering a wall cell ends it before any
        enemy is tested; otherwise the enemy pass runs and the projectile
        ends exactly when it hit some live enemy. */
    method UpdateProjectile(p: Projectile, h: Heading, hit: nat -> bool, roll: nat -> real) returns (q: Projectile)
      requires Valid() && UnitBounded(h)
      requires p.isActive ==> Open(worldMap, p.x, p.y)
      modifies this`enemies, this`pickups, this`kills
      ensures Valid()
      ensures !p.isActive ==> q == p && enemies == old(enemies) && pickups == old(pickups) && kills == old(kills)
      ensures DeadStayDead(old(enemies), enemies)
      ensures p.isActive ==> q.(isActive := true) == Advanced(p, h)
      ensures p.isActive && !Open(worldMap, q.x, q.y) ==>
        !q.isActive && enemies == old(enemies) && pickups == old(pickups) && kills == old(kills)
      ensures p.isActive && Open(worldMap, q.x, q.y) ==>
        && (q.isActive <==> !AnyStruck(old(enemies), hit))
        && enemies[..|old(enemies)|] == Strike(old(enemies), hit, PlayerDamage)
        && kills == old(kills) + Kills(old(enemies), hit, PlayerDamage)
        && |enemies| == |old(enemies)| + Kills(old(enemies), hit, PlayerDamage)
        && AllReplacements(worldMap, enemies[|old(enemies)|..], x, y)
        && pickups == old(pickups) + Drops(old(enemies), hit, roll, PlayerDamage)
      ensures q.isActive ==> Open(worldMap, q.x, q.y)
    {
      if !p.isActive {
        return p;
      }
      q := Advanced(p, h);
      NearOpenInBounds(worldMap, p.x, p.y, q.x, q.y);
      if worldMap[q.y.Floor][q.x.Floor] > 0 {
        q := q.(isActive := false);
        return;
      }
      var anyHit := HitEnemies(hit, roll);
      if anyHit {
        q := q.(isActive := false);
      }
    }

    /** The callback of the projectile filter in updateGame: update the
        projectile, then keep it exactly when it is still active. */
    method KeepProjectile(p: Projectile, h: Heading, hit: nat -> bool, roll: nat -> real)
      returns (q: Projectile, keep: bool)
      requires Valid() && UnitBounded(h) && p.isActive && Open(worldMap, p.x, p.y)
      modifies this`enemies, this`pickups, this`kills
      ensures Valid()
      ensures keep == q.isActive
      ensures q.(isActive := true) == Advanced(p, h)
      ensures !Open(worldMap, q.x, q.y) ==> !keep
      ensures keep ==> Open(worldMap, q.x, q.y)
      ensures Open(worldMap, q.x, q.y) ==> (keep <==> !AnyStruck(old(enemies), hit))
      ensures ProjectileStep(worldMap, q, Snapshot(old(enemies), old(kills), old(pickups)),
                             Snapshot(enemies, kills, pickups), hit, roll, x, y)
      ensures old(pickups) <= pickups
      ensures DeadStayDead(old(enemies), enemies)
    {
      q := UpdateProjectile(p, h, hit, roll);
      keep := q.isActive;
    }

    /** The projectile pass of updateGame: every projectile is updated, in
        order, and the filter keeps exactly those still active afterwards.
        heading(j), hit(j) and roll(j) are the inputs of the update of
        projectile j; results[j] is projectile j after its update, and
        states[j] the roster, kills and pickups just before it, states
        ending with those after the whole pass. */
    method UpdateProjectiles(heading: nat -> Heading, hit: nat -> nat -> bool, roll: nat -> nat -> real)
      returns (ghost results: seq<Projectile>, ghost states: seq<Snapshot>)
      requires Valid()
      requires forall j :: UnitBounded(heading(j))
      modifies this`projectiles, this`enemies, this`pickups, this`kills
      ensures Valid()
      ensures |results| == |old(projectiles)| && |states| == |results| + 1
      ensures forall j :: 0 <= j < |results| ==>
        results[j].(isActive := true) == Advanced(old(projectiles)[j], heading(j))
      ensures forall j :: 0 <= j < |results| ==>
        !Open(worldMap, results[j].x, results[j].y) ==> !results[j].isActive
      ensures states[0] == Snapshot(old(enemies), old(kills), old(pickups))
      ensures states[|results|] == Snapshot(enemies, kills, pickups)
      ensures forall j :: 0 <= j < |results| ==>
        ProjectileStep(worldMap, results[j], states[j], states[j + 1], hit(j), roll(j), x, y)
      ensures projectiles == Active(results)
      ensures old(pickups) <= pickups
      ensures DeadStayDead(old(enemies), enemies)
    {
      var kept: seq<Projectile> := [];
      results := [];
      states := [Snapshot(enemies, kills, pickups)];
      var j: nat := 0;
      while j < |projectiles|
        invariant projectiles == old(projectiles)
        invariant Valid()
        invariant Filtered(worldMap, projectiles, heading, hit, roll, j, results, kept, states, x, y)
        invariant states[0] == Snapshot(old(enemies), old(kills), old(pickups))
        invariant states[j] == Snapshot(enemies, kills, pickups)
        invariant old(pickups) <= pickups
        invariant DeadStayDead(old(enemies), enemies)
      {
        ghost var before := enemies;
        var q, keep := KeepProjectile(projectiles[j], heading(j), hit(j), roll(j));
        DeadStayDeadTrans(old(enemies), before, enemies);
        FilteredStep(worldMap, projectiles, heading, hit, roll, j, results, kept, states, q,
                     Snapshot(enemies, kills, pickups), x, y);
        results := results + [q];
        states := states + [Snapshot(enemies, kills, pickups)];
        if keep {
          kept := kept + [q];
        }
        j := j + 1;
      }
      projectiles := kept;
    }

    /** The game-over check of updateGame. */
    function GameOver(): (over: bool)
      reads this
      requires Valid()
      ensures over <==> health == 0
    {
      health <= 0
    }

    /** One frame of updateGame: the player's moves of this frame (each a
        displacement), the pickup filter, the enemy pass and the projectile
        pass, then the game-over check. All floating-point tests of the
        frame arrive as inputs. */
    method UpdateGame(moves: seq<(real, real)>, inRange: seq<bool>, approaches: seq<Approach>,
                      heading: nat -> Heading, hit: nat -> nat -> bool, roll: nat -> nat -> real,
                      now: int)
      returns (over: bool)
      requires Valid()
      requires forall m :: m in moves ==> -0.8 < m.0 < 0.8 && -0.8 < m.1 < 0.8
      requires |inRange| == |pickups| && |approaches| == |enemies|
      requires forall j :: UnitBounded(heading(j))
      modifies this`x, this`y, this`health, this`ammo, this`pickups, this`enemies, this`kills, this`projectiles
      ensures Valid()
      ensures over <==> health == 0
      ensures kills >= old(kills)
      ensures DeadStayDead(old(enemies), enemies)
    {
      for k := 0 to |moves|
        invariant Valid() && pickups == old(pickups) && enemies == old(enemies) && kills == old(kills)
      {
        var _ := Move(moves[k].0, moves[k].1);
      }
      CollectPickups(inRange);
      UpdateEnemies(approaches, now);
      var _, _ := UpdateProjectiles(heading, hit, roll);
      over := GameOver();
    }
  }
}
