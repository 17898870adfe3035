/** What one collision pass does to the collections and the ghosts: which
    dots and power pellets Pac-Man eats, what they are worth, how the
    frightened state is set and reverted, and what touching a ghost does. */
module Collisions {
  import opened Geometry
  import opened Entities
  import opened Layout

  /** Pac-Man's centre is strictly closer than `reach` to (x, y). */
  predicate Touches(p: Pacman, x: real, y: real, reach: real) {
    Within(Dist2(p.x, p.y, x, y), reach)
  }

  /** Pac-Man eats an item when the centres are closer than Pac-Man's radius
      plus the item's radius. */
  predicate Reaches(p: Pacman, it: Item) {
    Touches(p, it.x, it.y, p.size / 2.0 + it.size)
  }

  /** The items that survive one pass, in their original order. */
  function Uneaten(p: Pacman, items: seq<Item>): seq<Item> {
    if items == [] then []
    else (if Reaches(p, items[0]) then [] else [items[0]]) + Uneaten(p, items[1..])
  }

  /** What the items eaten in one pass are worth together. */
  function EatenValue(p: Pacman, items: seq<Item>): int {
    if items == [] then 0
    else (if Reaches(p, items[0]) then items[0].value else 0) + EatenValue(p, items[1..])
  }

  /** The total value of a collection. */
  function Total(items: seq<Item>): int {
    if items == [] then 0 else items[0].value + Total(items[1..])
  }

  /** Exactly the items out of Pac-Man's reach survive. */
  lemma {:induction false} UneatenMembers(p: Pacman, items: seq<Item>, it: Item)
    ensures it in Uneaten(p, items) <==> it in items && !Reaches(p, it)
  {
    if items != [] {
      UneatenMembers(p, items[1..], it);
      assert items == [items[0]] + items[1..];
    }
  }

  /** Removal keeps the survivors' relative order: the pass acts on each part
      of a collection separately. */
  lemma {:induction false} UneatenAppend(p: Pacman, a: seq<Item>, b: seq<Item>)
    ensures Uneaten(p, a + b) == Uneaten(p, a) + Uneaten(p, b)
    ensures EatenValue(p, a + b) == EatenValue(p, a) + EatenValue(p, b)
  {
    if a != [] {
      assert (a + b)[1..] == a[1..] + b;
      UneatenAppend(p, a[1..], b);
    } else {
      assert a + b == b;
    }
  }

  /** One backward step of the removal loop. Once the items after i are
      processed, the collection is the untouched prefix up to i followed by
      the survivors after i; splicing out item i when it is within reach, and
      keeping it otherwise, gives the same shape one position earlier. */
  lemma RemovalStep(p: Pacman, all: seq<Item>, i: int)
    requires 0 <= i < |all|
    ensures var cur := all[..i + 1] + Uneaten(p, all[i + 1..]);
      && cur[i] == all[i]
      && (if Reaches(p, all[i]) then cur[..i] + cur[i + 1..] else cur) == all[..i] + Uneaten(p, all[i..])
    ensures EatenValue(p, all[i..]) ==
      (if Reaches(p, all[i]) then all[i].value else 0) + EatenValue(p, all[i + 1..])
    ensures |Uneaten(p, all[i..])| == |Uneaten(p, all[i + 1..])| + (if Reaches(p, all[i]) then 0 else 1)
  {
    assert all[i..][0] == all[i] && all[i..][1..] == all[i + 1..];
    var rest := Uneaten(p, all[i + 1..]);
    var cur := all[..i + 1] + rest;
    assert all[..i + 1] == all[..i] + [all[i]];
    if Reaches(p, all[i]) {
      assert cur[..i] == all[..i] && cur[i + 1..] == rest;
    } else {
      assert cur == all[..i] + ([all[i]] + rest);
    }
  }

  /** Nothing is lost or made up: what is eaten plus what remains is what there was. */
  lemma {:induction false} ValueConserved(p: Pacman, items: seq<Item>)
    ensures EatenValue(p, items) + Total(Uneaten(p, items)) == Total(items)
  {
    if items != [] {
      ValueConserved(p, items[1..]);
      if !Reaches(p, items[0]) {
        assert Uneaten(p, items) == [items[0]] + Uneaten(p, items[1..]);
        assert ([items[0]] + Uneaten(p, items[1..]))[1..] == Uneaten(p, items[1..]);
      } else {
        assert Uneaten(p, items) == [] + Uneaten(p, items[1..]) == Uneaten(p, items[1..]);
      }
    }
  }

  /** With no item of negative value the score never decreases during
      collection, and it rises exactly when something is eaten. */
  lemma {:induction false} EatenValueNonneg(p: Pacman, items: seq<Item>)
    requires forall i :: 0 <= i < |items| ==> items[i].value >= 0
    ensures EatenValue(p, items) >= 0
    ensures (forall i :: 0 <= i < |items| ==> items[i].value > 0) ==>
      (EatenValue(p, items) > 0 <==> |Uneaten(p, items)| < |items|)
  {
    if items != [] {
      EatenValueNonneg(p, items[1..]);
      UneatenShorter(p, items[1..]);
    }
  }

  /** The pass removes something exactly when some item is within reach. */
  lemma {:induction false} UneatenShorter(p: Pacman, items: seq<Item>)
    ensures |Uneaten(p, items)| <= |items|
    ensures |Uneaten(p, items)| < |items| <==> exists i :: 0 <= i < |items| && Reaches(p, items[i])
  {
    if items != [] {
      UneatenShorter(p, items[1..]);
      if exists i :: 0 <= i < |items| && Reaches(p, items[i]) {
        var i :| 0 <= i < |items| && Reaches(p, items[i]);
        if i > 0 {
          assert items[1..][i - 1] == items[i];
        }
      }
      if exists i :: 0 <= i < |items[1..]| && Reaches(p, items[1..][i]) {
        var i :| 0 <= i < |items[1..]| && Reaches(p, items[1..][i]);
        assert items[i + 1] == items[1..][i];
      }
    }
  }

  /** The pellet effect: every ghost vulnerable and blue. */
  function Frightened(gs: seq<Ghost>): seq<Ghost> {
    seq(|gs|, i requires 0 <= i < |gs| => gs[i].(vulnerable := true, color := Blue))
  }

  /** The reversion timer's effect: every ghost not vulnerable, with the
      colour of its slot. */
  function Reverted(gs: seq<Ghost>): seq<Ghost> {
    seq(|gs|, i requires 0 <= i < |gs| => gs[i].(vulnerable := false, color := Palette[i % 4]))
  }

  /** The ghost in slot i is blue when it is vulnerable and has the slot's
      own colour otherwise. */
  predicate SlotColored(g: Ghost, i: int) {
    if g.vulnerable then g.color == Blue else g.color == Palette[i % 4]
  }

  /** The colour invariant, slot by slot from the first. */
  ghost predicate ColorsConsistent(gs: seq<Ghost>) {
    gs == [] || (ColorsConsistent(gs[..|gs| - 1]) && SlotColored(gs[|gs| - 1], |gs| - 1))
  }

  /** The colour invariant holds exactly when every slot is coloured right. */
  lemma {:induction false} ColorsConsistentIff(gs: seq<Ghost>)
    ensures ColorsConsistent(gs) <==> forall i :: 0 <= i < |gs| ==> SlotColored(gs[i], i)
  {
    if gs != [] {
      var front := gs[..|gs| - 1];
      ColorsConsistentIff(front);
      assert forall i :: 0 <= i < |front| ==> front[i] == gs[i];
    }
  }

  /** Under the colour invariant, vulnerability and blueness coincide. */
  lemma VulnerableIffBlue(gs: seq<Ghost>, i: int)
    requires ColorsConsistent(gs) && 0 <= i < |gs|
    ensures gs[i].vulnerable <==> gs[i].color == Blue
  {
    ColorsConsistentIff(gs);
    assert SlotColored(gs[i], i);
    BlueIsNoSlotColor(i % 4);
  }

  /** Frightening keeps the colour invariant, is idempotent, and moves no ghost. */
  lemma FrightenedConsistent(gs: seq<Ghost>)
    ensures ColorsConsistent(Frightened(gs))
    ensures Frightened(Frightened(gs)) == Frightened(gs)
    ensures forall i :: 0 <= i < |gs| ==>
      Frightened(gs)[i].vulnerable && Frightened(gs)[i].x == gs[i].x && Frightened(gs)[i].y == gs[i].y
  {
    ColorsConsistentIff(Frightened(gs));
  }

  /** Reverting establishes the colour invariant, leaves no ghost vulnerable,
      and moves no ghost. */
  lemma RevertedConsistent(gs: seq<Ghost>)
    ensures ColorsConsistent(Reverted(gs))
    ensures forall i :: 0 <= i < |gs| ==>
      !Reverted(gs)[i].vulnerable && Reverted(gs)[i].x == gs[i].x && Reverted(gs)[i].y == gs[i].y
  {
    ColorsConsistentIff(Reverted(gs));
  }

  /** Pac-Man touches a ghost when the centres are closer than the sum of the two radii. */
  predicate Catches(p: Pacman, g: Ghost) {
    Touches(p, g.x, g.y, p.size / 2.0 + g.size / 2.0)
  }

  /** An eaten ghost goes back to spawn slot i, no longer vulnerable, in its slot colour. */
  function Respawned(g: Ghost, i: int): Ghost {
    g.(x := SpawnX(i), y := SpawnY, vulnerable := false, color := Palette[i % 4])
  }

  function AfterContact(p: Pacman, g: Ghost, i: int): Ghost {
    if Catches(p, g) && g.vulnerable then Respawned(g, i) else g
  }

  /** The ghosts after the contact pass. */
  function Contacted(p: Pacman, gs: seq<Ghost>): seq<Ghost> {
    seq(|gs|, i requires 0 <= i < |gs| => AfterContact(p, gs[i], i))
  }

  /** How many vulnerable ghosts Pac-Man touches. */
  function GhostsEaten(p: Pacman, gs: seq<Ghost>): nat {
    if gs == [] then 0
    else GhostsEaten(p, gs[..|gs| - 1]) +
         (if Catches(p, gs[|gs| - 1]) && gs[|gs| - 1].vulnerable then 1 else 0)
  }

  /** Pac-Man touches some ghost that is not vulnerable, checked slot by slot
      from the first. */
  predicate CaughtBy(p: Pacman, gs: seq<Ghost>) {
    gs != [] &&
    (CaughtBy(p, gs[..|gs| - 1]) || (Catches(p, gs[|gs| - 1]) && !gs[|gs| - 1].vulnerable))
  }

  /** Pac-Man is caught exactly when some ghost it touches is not vulnerable. */
  lemma {:induction false} CaughtByIff(p: Pacman, gs: seq<Ghost>)
    ensures CaughtBy(p, gs) <==> exists i :: 0 <= i < |gs| && Catches(p, gs[i]) && !gs[i].vulnerable
  {
    if gs != [] {
      var front := gs[..|gs| - 1];
      CaughtByIff(p, front);
      assert forall i :: 0 <= i < |front| ==> front[i] == gs[i];
      if exists i :: 0 <= i < |gs| && Catches(p, gs[i]) && !gs[i].vulnerable {
        var i :| 0 <= i < |gs| && Catches(p, gs[i]) && !gs[i].vulnerable;
        if i < |front| {
          assert Catches(p, front[i]) && !front[i].vulnerable;
        }
      }
    }
  }

  /** The ghosts part-way through the contact pass: the first i resolved,
      the rest untouched. */
  function ContactedUpTo(p: Pacman, gs: seq<Ghost>, i: int): seq<Ghost>
    requires 0 <= i <= |gs|
  {
    seq(|gs|, k requires 0 <= k < |gs| => if k < i then AfterContact(p, gs[k], k) else gs[k])
  }

  /** One forward step of the contact loop: the prefix up to and including
      ghost i adds that ghost's contact to the prefix before it. */
  lemma ContactPrefix(p: Pacman, gs: seq<Ghost>, i: int)
    requires 0 <= i < |gs|
    ensures ContactedUpTo(p, gs, i)[i := AfterContact(p, gs[i], i)] == ContactedUpTo(p, gs, i + 1)
    ensures GhostsEaten(p, gs[..i + 1]) ==
      GhostsEaten(p, gs[..i]) + (if Catches(p, gs[i]) && gs[i].vulnerable then 1 else 0)
    ensures CaughtBy(p, gs[..i + 1]) <==>
      CaughtBy(p, gs[..i]) || (Catches(p, gs[i]) && !gs[i].vulnerable)
  {
    assert gs[..i + 1][..i] == gs[..i];
    assert forall k :: 0 <= k < i ==> gs[..i + 1][k] == gs[..i][k];
  }

  /** The contact pass keeps the colour invariant: every eaten ghost is back in
      its slot, not vulnerable; every other ghost is untouched. */
  lemma ContactedConsistent(p: Pacman, gs: seq<Ghost>)
    requires ColorsConsistent(gs)
    ensures ColorsConsistent(Contacted(p, gs))
    ensures forall i :: 0 <= i < |gs| && Catches(p, gs[i]) && gs[i].vulnerable ==>
      var h := Contacted(p, gs)[i];
      h.x == SpawnX(i) && h.y == SpawnY && !h.vulnerable
    ensures forall i :: 0 <= i < |gs| && !(Catches(p, gs[i]) && gs[i].vulnerable) ==>
      Contacted(p, gs)[i] == gs[i]
  {
    ColorsConsistentIff(gs);
    ColorsConsistentIff(Contacted(p, gs));
  }

  /** At most every ghost is eaten, and none is when none is vulnerable. */
  lemma {:induction false} GhostsEatenBound(p: Pacman, gs: seq<Ghost>)
    ensures GhostsEaten(p, gs) <= |gs|
    ensures (forall i :: 0 <= i < |gs| ==> !gs[i].vulnerable) ==> GhostsEaten(p, gs) == 0
  {
    if gs != [] {
      var front := gs[..|gs| - 1];
      GhostsEatenBound(p, front);
      assert forall i :: 0 <= i < |front| ==> front[i] == gs[i];
    }
  }
}
