/** The entities of the world as values: enemies, pickups and projectiles,
    with the rules each one follows on its own. The floating-point results
    of the source (trigonometry, square roots) arrive as inputs. */
module Entities {

  const EnemyHealth: int := 50
  const EnemyDamage: int := 10
  /** Milliseconds between two attacks of one enemy. */
  const AttackDelay: int := 1000
  /** Distance a projectile covers per update, in cells. */
  const ProjectileSpeed: real := 0.2

  /** The pickup type: 'health' or 'ammo'. */
  datatype PickupKind = HealthPack | AmmoPack

  /** A pickup lying at (x, y); its amount is fixed by its type. */
  datatype Pickup = Pickup(x: real, y: real, kind: PickupKind) {
    const amount: int := if kind == HealthPack then 25 else 15
  }

  datatype Enemy = Enemy(x: real, y: real, health: int, lastAttack: int, isAlive: bool)

  /** A fresh enemy, as the Enemy constructor builds it. */
  function NewEnemy(x: real, y: real): (e: Enemy)
    ensures e.isAlive && e.health == EnemyHealth && e.lastAttack == 0 && e.x == x && e.y == y
  {
    Enemy(x, y, EnemyHealth, 0, true)
  }

  datatype Projectile = Projectile(x: real, y: real, direction: real, isActive: bool)

  /** What Enemy.update learns from its floating-point geometry: whether the
      player is beyond the 0.5 standoff radius, the point one chase step
      brings the enemy to, and whether the player is within the attack
      radius of 1. */
  datatype Approach = Approach(beyondStandoff: bool, nextX: real, nextY: real, inReach: bool)

  /** cos and sin of a projectile's direction. */
  datatype Heading = Heading(cos: real, sin: real)

  predicate UnitBounded(h: Heading) {
    -1.0 <= h.cos <= 1.0 && -1.0 <= h.sin <= 1.0
  }

  /** An enemy strikes when it is alive, in reach and its cooldown elapsed. */
  predicate Attacks(e: Enemy, a: Approach, now: int) {
    e.isAlive && a.inReach && now - e.lastAttack > AttackDelay
  }

  /** The enemy after Enemy.update: a dead enemy does nothing; a live one
      steps towards the player when beyond the standoff radius and restarts
      its cooldown when it strikes. */
  function Updated(e: Enemy, a: Approach, now: int): (r: Enemy)
    ensures !e.isAlive ==> r == e
    ensures r.isAlive == e.isAlive && r.health == e.health
    ensures r.lastAttack == if Attacks(e, a, now) then now else e.lastAttack
    ensures e.isAlive && !a.beyondStandoff ==> r.x == e.x && r.y == e.y
  {
    if !e.isAlive then e
    else
      var moved := if a.beyondStandoff then e.(x := a.nextX, y := a.nextY) else e;
      if Attacks(e, a, now) then moved.(lastAttack := now) else moved
  }

  /** The enemy after takeDamage: health drops by exactly damage and the
      enemy dies when health reaches zero or below. */
  function Damaged(e: Enemy, damage: int): (r: Enemy)
    ensures r.health == e.health - damage
    ensures r.isAlive ==> e.isAlive
    ensures e.isAlive ==> (r.isAlive <==> r.health > 0)
    ensures r.x == e.x && r.y == e.y && r.lastAttack == e.lastAttack
  {
    var h := e.health - damage;
    e.(health := h, isAlive := if h <= 0 then false else e.isAlive)
  }

  /** The drop left by an enemy that dies at draw r of Math.random():
      a health pickup below 0.3, an ammo pickup below 0.6, nothing else. */
  function Drop(e: Enemy, r: real): (d: seq<Pickup>)
    ensures |d| <= 1
    ensures d == [Pickup(e.x, e.y, HealthPack)] <==> r < 0.3
    ensures d == [Pickup(e.x, e.y, AmmoPack)] <==> 0.3 <= r < 0.6
    ensures d == [] <==> 0.6 <= r
  {
    if r < 0.3 then [Pickup(e.x, e.y, HealthPack)]
    else if r < 0.6 then [Pickup(e.x, e.y, AmmoPack)]
    else []
  }

  /** The projectile after one step along its heading. */
  function Advanced(p: Projectile, h: Heading): (q: Projectile)
    requires UnitBounded(h)
    ensures -ProjectileSpeed <= q.x - p.x <= ProjectileSpeed
    ensures -ProjectileSpeed <= q.y - p.y <= ProjectileSpeed
    ensures q.direction == p.direction && q.isActive == p.isActive
  {
    p.(x := p.x + h.cos * ProjectileSpeed, y := p.y + h.sin * ProjectileSpeed)
  }

  /** The number of live enemies in a collection. */
  function AliveCount(es: seq<Enemy>): (n: nat)
    ensures n <= |es|
  {
    if es == [] then 0
    else AliveCount(es[..|es| - 1]) + (if es[|es| - 1].isAlive then 1 else 0)
  }

  /** Replacing one enemy changes the live count by the change at that index. */
  lemma {:induction false} AliveCountUpdate(es: seq<Enemy>, i: nat, e: Enemy)
    requires i < |es|
    ensures AliveCount(es[i := e]) + (if es[i].isAlive then 1 else 0)
         == AliveCount(es) + (if e.isAlive then 1 else 0)
  {
    var n := |es| - 1;
    var es' := es[i := e];
    assert es'[..n] == if i == n then es[..n] else es[..n][i := e];
    if i < n {
      AliveCountUpdate(es[..n], i, e);
    }
  }

  /** Appending one enemy adds one to the live count exactly when it is alive. */
  lemma AliveCountSnoc(es: seq<Enemy>, e: Enemy)
    ensures AliveCount(es + [e]) == AliveCount(es) + (if e.isAlive then 1 else 0)
  {
    assert (es + [e])[..|es|] == es;
  }

  /** Every live enemy of es has positive health. */
  predicate AllHealthy(es: seq<Enemy>) {
    es == [] || (AllHealthy(es[..|es| - 1]) && (es[|es| - 1].isAlive ==> es[|es| - 1].health > 0))
  }

  /** AllHealthy is the universal statement it names. */
  lemma {:induction false} AllHealthyEach(es: seq<Enemy>)
    ensures AllHealthy(es) <==> forall k :: 0 <= k < |es| && es[k].isAlive ==> es[k].health > 0
  {
    if es != [] {
      AllHealthyEach(es[..|es| - 1]);
    }
  }

  /** Replacing one enemy by an enemy that is dead or has positive health
      keeps every live enemy healthy. */
  lemma {:induction false} AllHealthyUpdate(es: seq<Enemy>, i: nat, e: Enemy)
    requires i < |es| && AllHealthy(es) && (e.isAlive ==> e.health > 0)
    ensures AllHealthy(es[i := e])
  {
    var n := |es| - 1;
    var es' := es[i := e];
    assert es'[..n] == if i == n then es[..n] else es[..n][i := e];
    if i < n {
      AllHealthyUpdate(es[..n], i, e);
    }
  }

  /** Appending an enemy that is dead or has positive health keeps every
      live enemy healthy. */
  lemma AllHealthySnoc(es: seq<Enemy>, e: Enemy)
    requires AllHealthy(es) && (e.isAlive ==> e.health > 0)
    ensures AllHealthy(es + [e])
  {
    assert (es + [e])[..|es|] == es;
  }

  /** A health pickup adds its amount to health, any other to ammo, each
      clamped to its maximum (Math.min(max, old + amount)). */
  function Collected(p: Pickup, health: int, ammo: int, maxHealth: int, maxAmmo: int): (r: (int, int))
    ensures p.kind == HealthPack ==> r.1 == ammo && r.0 == Min(maxHealth, health + 25)
    ensures p.kind == AmmoPack ==> r.0 == health && r.1 == Min(maxAmmo, ammo + 15)
  {
    if p.kind == HealthPack then (Min(maxHealth, health + p.amount), ammo)
    else (health, Min(maxAmmo, ammo + p.amount))
  }

  /** How many pickups of the given kind are in range and so collected. */
  function CollectedCount(ps: seq<Pickup>, inRange: seq<bool>, kind: PickupKind): (n: nat)
    requires |ps| == |inRange|
    ensures n <= |ps|
  {
    if ps == [] then 0
    else
      var last := |ps| - 1;
      CollectedCount(ps[..last], inRange[..last], kind)
        + (if inRange[last] && ps[last].kind == kind then 1 else 0)
  }

  /** The pickups the filter in updatePlayer keeps: collecting always
      succeeds, so exactly those out of range stay. */
  function Uncollected(ps: seq<Pickup>, inRange: seq<bool>): (r: seq<Pickup>)
    requires |ps| == |inRange|
    ensures |r| + CollectedCount(ps, inRange, HealthPack) + CollectedCount(ps, inRange, AmmoPack) == |ps|
  {
    if ps == [] then []
    else
      var last := |ps| - 1;
      Uncollected(ps[..last], inRange[..last]) + (if inRange[last] then [] else [ps[last]])
  }

  /** The filter keeps every pickup out of range and invents none. */
  lemma {:induction false} UncollectedKeepsFar(ps: seq<Pickup>, inRange: seq<bool>)
    requires |ps| == |inRange|
    ensures forall i :: 0 <= i < |ps| && !inRange[i] ==> ps[i] in Uncollected(ps, inRange)
    ensures forall p :: p in Uncollected(ps, inRange) ==> p in ps
  {
    if ps != [] {
      var last := |ps| - 1;
      UncollectedKeepsFar(ps[..last], inRange[..last]);
      assert forall i :: 0 <= i < last ==> ps[..last][i] == ps[i] && inRange[..last][i] == inRange[i];
    }
  }

  /** Extending the scanned prefix of the pickups by one. */
  lemma PickupPrefixStep(ps: seq<Pickup>, inRange: seq<bool>, i: nat)
    requires |ps| == |inRange| && i < |ps|
    ensures Uncollected(ps[..i + 1], inRange[..i + 1])
         == Uncollected(ps[..i], inRange[..i]) + (if inRange[i] then [] else [ps[i]])
    ensures CollectedCount(ps[..i + 1], inRange[..i + 1], HealthPack)
         == CollectedCount(ps[..i], inRange[..i], HealthPack) + (if inRange[i] && ps[i].kind == HealthPack then 1 else 0)
    ensures CollectedCount(ps[..i + 1], inRange[..i + 1], AmmoPack)
         == CollectedCount(ps[..i], inRange[..i], AmmoPack) + (if inRange[i] && ps[i].kind == AmmoPack then 1 else 0)
  {
    assert ps[..i + 1][..i] == ps[..i] && inRange[..i + 1][..i] == inRange[..i];
  }

  /** How many enemies strike the player in one pass of updateGame. */
  function StrikeCount(es: seq<Enemy>, approaches: seq<Approach>, now: int): (n: nat)
    requires |es| == |approaches|
    ensures n <= |es|
  {
    if es == [] then 0
    else
      var last := |es| - 1;
      StrikeCount(es[..last], approaches[..last], now)
        + (if Attacks(es[last], approaches[last], now) then 1 else 0)
  }

  /** Enemy e, struck by a projectile when struck holds, dies of it: the
      guard of Projectile.update lets only live enemies be damaged. */
  predicate Killed(e: Enemy, struck: bool, damage: int) {
    e.isAlive && struck && e.health - damage <= 0
  }

  /** Enemy e after one projectile's enemy test, struck telling whether it
      lies within the hit radius: only a live enemy takes the damage, so a
      dead one is left exactly as it was. */
  function Struck(e: Enemy, struck: bool, damage: int): (r: Enemy)
    ensures !e.isAlive || !struck ==> r == e
    ensures e.isAlive && struck ==> r.health == e.health - damage && (r.isAlive <==> r.health > 0)
    ensures r.x == e.x && r.y == e.y && r.lastAttack == e.lastAttack
  {
    if e.isAlive && struck then Damaged(e, damage) else e
  }

  /** The enemies es after one projectile's enemy pass, hit(k) telling
      whether enemy k is within the hit radius: each enemy is struck or
      left alone on its own, in place. */
  function Strike(es: seq<Enemy>, hit: nat -> bool, damage: int): (r: seq<Enemy>)
    ensures |r| == |es|
  {
    if es == [] then []
    else
      var last := |es| - 1;
      Strike(es[..last], hit, damage) + [Struck(es[last], hit(last), damage)]
  }

  /** Strike acts on each enemy on its own: enemy k of the result is
      enemy k of es struck or not according to hit(k). */
  lemma {:induction false} StrikeEach(es: seq<Enemy>, hit: nat -> bool, damage: int)
    ensures forall k :: 0 <= k < |es| ==> Strike(es, hit, damage)[k] == Struck(es[k], hit(k), damage)
  {
    if es != [] {
      var last := |es| - 1;
      StrikeEach(es[..last], hit, damage);
    }
  }

  /** Striking enemy i of a roster whose first i enemies are already
      struck and whose tail is untouched extends the struck prefix by one. */
  lemma StrikeStep(es: seq<Enemy>, hit: nat -> bool, damage: int, i: nat, tail: seq<Enemy>)
    requires i < |es|
    ensures |Strike(es[..i], hit, damage) + es[i..] + tail| == |es| + |tail|
    ensures (Strike(es[..i], hit, damage) + es[i..] + tail)[i] == es[i]
    ensures (Strike(es[..i], hit, damage) + es[i..] + tail)[i := Struck(es[i], hit(i), damage)]
         == Strike(es[..i + 1], hit, damage) + es[i + 1..] + tail
  {
    assert es[..i + 1][..i] == es[..i];
  }

  /** How many of the enemies es die to one projectile, hit(k) telling
      whether enemy k is within its hit radius. */
  function Kills(es: seq<Enemy>, hit: nat -> bool, damage: int): (n: nat)
    ensures n <= |es|
  {
    if es == [] then 0
    else
      var last := |es| - 1;
      Kills(es[..last], hit, damage) + (if Killed(es[last], hit(last), damage) then 1 else 0)
  }

  /** The pickups those deaths leave, in enemy order, roll(k) being the
      draw made when enemy k dies. */
  function Drops(es: seq<Enemy>, hit: nat -> bool, roll: nat -> real, damage: int): (d: seq<Pickup>)
    ensures |d| <= Kills(es, hit, damage)
  {
    if es == [] then []
    else
      var last := |es| - 1;
      Drops(es[..last], hit, roll, damage)
        + (if Killed(es[last], hit(last), damage) then Drop(es[last], roll(last)) else [])
  }

  /** Whether some enemy of es is alive and within the hit radius. */
  predicate AnyStruck(es: seq<Enemy>, hit: nat -> bool) {
    if es == [] then false
    else
      var last := |es| - 1;
      AnyStruck(es[..last], hit) || (es[last].isAlive && hit(last))
  }

  /** AnyStruck is the existential it names. */
  lemma {:induction false} AnyStruckIff(es: seq<Enemy>, hit: nat -> bool)
    ensures AnyStruck(es, hit) <==> exists k :: 0 <= k < |es| && es[k].isAlive && hit(k)
  {
    if es != [] {
      var last := |es| - 1;
      AnyStruckIff(es[..last], hit);
      assert forall k :: 0 <= k < last ==> es[..last][k] == es[k];
    }
  }

  /** A projectile with no enemy in range hits nothing: it strikes,
      kills and drops nothing and leaves every enemy as it was. */
  lemma {:induction false} NoneStruck(es: seq<Enemy>, hit: nat -> bool, roll: nat -> real, damage: int)
    requires forall k :: !hit(k)
    ensures !AnyStruck(es, hit)
    ensures Strike(es, hit, damage) == es
    ensures Kills(es, hit, damage) == 0 && Drops(es, hit, roll, damage) == []
  {
    if es != [] {
      var last := |es| - 1;
      NoneStruck(es[..last], hit, roll, damage);
      assert es[..last] + [es[last]] == es;
    }
  }

  /** Extending the scanned prefix of the enemies by one. */
  lemma KillsStep(es: seq<Enemy>, hit: nat -> bool, roll: nat -> real, damage: int, i: nat)
    requires i < |es|
    ensures Kills(es[..i + 1], hit, damage)
         == Kills(es[..i], hit, damage) + (if Killed(es[i], hit(i), damage) then 1 else 0)
    ensures Drops(es[..i + 1], hit, roll, damage)
         == Drops(es[..i], hit, roll, damage) + (if Killed(es[i], hit(i), damage) then Drop(es[i], roll(i)) else [])
    ensures AnyStruck(es[..i + 1], hit) == (AnyStruck(es[..i], hit) || (es[i].isAlive && hit(i)))
  {
    assert es[..i + 1][..i] == es[..i];
  }

  /** The projectiles still active, in their order: what the filter of
      updateGame keeps. */
  function Active(qs: seq<Projectile>): (r: seq<Projectile>)
    ensures |r| <= |qs|
  {
    if qs == [] then []
    else
      var last := |qs| - 1;
      Active(qs[..last]) + (if qs[last].isActive then [qs[last]] else [])
  }

  /** The filter keeps exactly the active projectiles: every kept one is
      active and was there, and every active one is kept. */
  lemma {:induction false} ActiveKeepsExactlyActive(qs: seq<Projectile>)
    ensures forall q :: q in Active(qs) ==> q.isActive && q in qs
    ensures forall j :: 0 <= j < |qs| && qs[j].isActive ==> qs[j] in Active(qs)
  {
    if qs != [] {
      var last := |qs| - 1;
      ActiveKeepsExactlyActive(qs[..last]);
      assert forall j :: 0 <= j < last ==> qs[..last][j] == qs[j];
    }
  }

  /** From one state to a later one: enemies are only ever appended, and a
      dead enemy is never changed again, so death is final. */
  ghost predicate DeadStayDead(before: seq<Enemy>, after: seq<Enemy>) {
    |before| <= |after|
    && forall k :: 0 <= k < |before| && !before[k].isAlive ==> after[k] == before[k]
  }

  /** Changing one live enemy and appending others leaves every dead one
      as it was. */
  lemma DeadStayDeadUpdate(es: seq<Enemy>, i: nat, e: Enemy, extra: seq<Enemy>)
    requires i < |es| && es[i].isAlive
    ensures DeadStayDead(es, es[i := e] + extra)
  {
    var updated := es[i := e];
    var after := updated + extra;
    assert forall k :: 0 <= k < |es| ==> after[k] == updated[k];
  }

  /** Death stays final across consecutive steps. */
  lemma DeadStayDeadTrans(a: seq<Enemy>, b: seq<Enemy>, c: seq<Enemy>)
    requires DeadStayDead(a, b) && DeadStayDead(b, c)
    ensures DeadStayDead(a, c)
  {
  }

  function Min(a: int, b: int): int { if a <= b then a else b }

  /** Capping after each of two additions is capping once after both. */
  lemma MinCapped(cap: int, a: int, k: int)
    requires k >= 0
    ensures Min(cap, Min(cap, a) + k) == Min(cap, a + k)
  {
  }
  function Max(a: int, b: int): int { if a >= b then a else b }

  /** Flooring at 0 after each of two subtractions is flooring once after both. */
  lemma MaxFloored(a: int, k: int)
    requires k >= 0
    ensures Max(0, Max(0, a) - k) == Max(0, a - k)
  {
  }
}
