/**
 * The chest inventories the two generators burn coal from. Only the number
 * of coal items in each chest matters: `contains(Material.COAL)` and
 * `removeItem(ItemStack(Material.COAL, n))` of Bukkit's inventory API.
 */
module Inventories {
  import opened Enclosure

  /** The coal in the chest at `b`; a block with no recorded chest holds none. */
  function CoalAt(coal: map<Coord, nat>, b: Coord): nat
  {
    if b in coal then coal[b] else 0
  }

  /** Some chest of `intakes` holds coal. */
  predicate AnyCoal(intakes: seq<Coord>, coal: map<Coord, nat>)
  {
    exists i :: 0 <= i < |intakes| && CoalAt(coal, intakes[i]) > 0
  }

  /** The position of the first chest of `intakes` holding coal; `|intakes|` when none does. */
  function FirstWithCoal(intakes: seq<Coord>, coal: map<Coord, nat>): (k: nat)
    ensures k <= |intakes|
    ensures forall j :: 0 <= j < k ==> CoalAt(coal, intakes[j]) == 0
    ensures k < |intakes| ==> CoalAt(coal, intakes[k]) > 0
  {
    if intakes == [] then 0
    else if CoalAt(coal, intakes[0]) > 0 then 0
    else 1 + FirstWithCoal(intakes[1..], coal)
  }

  /** There is fuel exactly when the first fuelled chest exists. */
  lemma FirstWithCoalFound(intakes: seq<Coord>, coal: map<Coord, nat>)
    ensures AnyCoal(intakes, coal) <==> FirstWithCoal(intakes, coal) < |intakes|
  {
    var k := FirstWithCoal(intakes, coal);
    if AnyCoal(intakes, coal) {
      var i :| 0 <= i < |intakes| && CoalAt(coal, intakes[i]) > 0;
      assert k <= i;
    }
  }

  /** A scan that passed only empty chests and stopped at a fuelled one stopped at the first. */
  lemma FirstWithCoalAt(intakes: seq<Coord>, coal: map<Coord, nat>, i: nat)
    requires i < |intakes| && CoalAt(coal, intakes[i]) > 0
    requires forall j :: 0 <= j < i ==> CoalAt(coal, intakes[j]) == 0
    ensures FirstWithCoal(intakes, coal) == i
  {
  }

  /** The coal left after `removeItem` asks for `n` pieces: all of them, or everything there is. */
  function AfterRemoving(count: nat, n: nat): (left: nat)
    ensures left <= count
    ensures count >= n ==> left == count - n
    ensures count < n ==> left == 0
  {
    if count >= n then count - n else 0
  }

  /** The coal in every chest of the world. */
  class Chests {
    var coal: map<Coord, nat>

    constructor (coal: map<Coord, nat>)
      ensures this.coal == coal
    {
      this.coal := coal;
    }

    /** `blockInventory.removeItem(ItemStack(Material.COAL, n))` on the chest at `b`. */
    method RemoveCoal(b: Coord, n: nat)
      modifies this
      ensures CoalAt(coal, b) == AfterRemoving(CoalAt(old(coal), b), n)
      ensures forall c :: c != b ==> CoalAt(coal, c) == CoalAt(old(coal), c)
    {
      coal := coal[b := AfterRemoving(CoalAt(coal, b), n)];
    }
  }
}
