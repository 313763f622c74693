/**
 * Disease bookkeeping of disease/DiseaseManager.kt: the conversions between
 * progress calls and seconds, and each player's insertion-ordered set of
 * diseases with add, find-by-name and cure.
 */
module Diseases {
  import opened Wrappers

  /** A 32-bit Kotlin `Int`. */
  newtype int32 = x: int | -0x8000_0000 <= x < 0x8000_0000

  /** Two's-complement wrap-around of an exact product back into an `Int`. */
  function Wrap32(x: int): (r: int32)
    ensures -0x8000_0000 <= x < 0x8000_0000 ==> r as int == x
    ensures (r as int - x) % 0x1_0000_0000 == 0
  {
    ((x + 0x8000_0000) % 0x1_0000_0000 - 0x8000_0000) as int32
  }

  /** Kotlin's `/` on `Int`: the quotient truncated toward zero. */
  function Quot(a: int, b: int): (q: int)
    requires b > 0
    ensures a >= 0 ==> 0 <= a - q * b < b
    ensures a < 0 ==> -b < a - q * b <= 0
  {
    if a >= 0 then a / b else -((-a) / b)
  }

  /** Game ticks between two progress calls; the game runs 20 ticks a second. */
  const ProgressInterval: int := 20
  const TicksPerSecond: int := 20

  /** `callCountToSeconds`: divides by the number of seconds per call, which is 1. */
  function CallCountToSeconds(callCount: int32): (seconds: int32)
    ensures seconds == callCount
  {
    Quot(callCount as int, ProgressInterval / TicksPerSecond) as int32
  }

  /** `secondsToCallCount` as written: multiplies by ticks per call times ticks per second, 400, wrapping. */
  function SecondsToCallCount(seconds: int32): (callCount: int32)
    ensures -5368709 <= seconds as int <= 5368709 ==> callCount as int == seconds as int * 400
  {
    Wrap32(seconds as int * (ProgressInterval * TicksPerSecond))
  }

  /** As written, one second converts to 400 calls, and back to 400 seconds. */
  lemma SecondsRoundTripFails()
    ensures SecondsToCallCount(1) == 400
    ensures CallCountToSeconds(SecondsToCallCount(1)) == 400
  {
  }

  /** The conversion that undoes `callCountToSeconds`: multiply by the seconds per call. */
  function SecondsToCallCountInverse(seconds: int32): (callCount: int32)
  {
    Wrap32(seconds as int * (ProgressInterval / TicksPerSecond))
  }

  /** The corrected conversion is the inverse of `callCountToSeconds`, both ways. */
  lemma CallCountRoundTrip(seconds: int32, callCount: int32)
    ensures CallCountToSeconds(SecondsToCallCountInverse(seconds)) == seconds
    ensures SecondsToCallCountInverse(CallCountToSeconds(callCount)) == callCount
  {
  }

  /** A player, by UUID. */
  datatype PlayerId = PlayerId(uuid: nat)

  /** A disease instance: compared by identity, with a name. */
  datatype Disease = Disease(id: nat, name: string)

  predicate NoDuplicates(ds: seq<Disease>)
  {
    forall i, j :: 0 <= i < j < |ds| ==> ds[i] != ds[j]
  }

  /** `add` on a LinkedHashSet: appended unless already present. */
  function AddOnce(ds: seq<Disease>, d: Disease): (r: seq<Disease>)
    ensures forall e :: e in r <==> e in ds || e == d
    ensures NoDuplicates(ds) ==> NoDuplicates(r)
  {
    if d in ds then ds else ds + [d]
  }

  /** Adding the same disease again changes nothing. */
  lemma AddOnceIdempotent(ds: seq<Disease>, d: Disease)
    ensures AddOnce(AddOnce(ds, d), d) == AddOnce(ds, d)
  {
  }

  /** Kotlin's `find`: the first disease with the name, if any. */
  function FindByName(ds: seq<Disease>, name: string): (r: Option<Disease>)
    ensures r.Some? ==> r.value in ds && r.value.name == name
    ensures r.None? <==> forall d :: d in ds ==> d.name != name
  {
    if ds == [] then None
    else if ds[0].name == name then Some(ds[0])
    else FindByName(ds[1..], name)
  }

  /** The one found comes before every other disease of that name. */
  lemma {:induction false} FindByNameFirst(ds: seq<Disease>, name: string, i: nat)
    requires i < |ds| && ds[i].name == name
    ensures FindByName(ds, name).Some?
    ensures exists k :: 0 <= k <= i && FindByName(ds, name).value == ds[k] &&
                        (forall j :: 0 <= j < k ==> ds[j].name != name)
  {
    if ds[0].name != name {
      FindByNameFirst(ds[1..], name, i - 1);
      var k :| 0 <= k <= i - 1 && FindByName(ds[1..], name).value == ds[1..][k] &&
        forall j :: 0 <= j < k ==> ds[1..][j].name != name;
      assert FindByName(ds, name).value == ds[k + 1];
      assert forall j :: 0 < j < k + 1 ==> ds[j].name == ds[1..][j - 1].name;
    } else {
      assert FindByName(ds, name).value == ds[0];
    }
  }

  /** The diseases a cure removes: named among the cures, and successfully cured. */
  predicate Cured(d: Disease, cures: seq<string>, succeeds: Disease -> bool)
  {
    d.name in cures && succeeds(d)
  }

  /** What is left of `ds` after the cure, in order. */
  function Uncured(ds: seq<Disease>, cures: seq<string>, succeeds: Disease -> bool): (r: seq<Disease>)
    ensures forall d :: d in r <==> d in ds && !Cured(d, cures, succeeds)
    ensures |r| <= |ds|
  {
    if ds == [] then []
    else
      var last := ds[|ds| - 1];
      assert ds == ds[..|ds| - 1] + [last];
      Uncured(ds[..|ds| - 1], cures, succeeds) + (if Cured(last, cures, succeeds) then [] else [last])
  }

  lemma {:induction false} UncuredNoDuplicates(ds: seq<Disease>, cures: seq<string>, succeeds: Disease -> bool)
    requires NoDuplicates(ds)
    ensures NoDuplicates(Uncured(ds, cures, succeeds))
  {
    if ds != [] {
      UncuredNoDuplicates(ds[..|ds| - 1], cures, succeeds);
      assert ds[|ds| - 1] !in ds[..|ds| - 1];
    }
  }

  /** A cure that names nothing, or cures nothing, leaves the set as it was. */
  lemma {:induction false} UncuredNothing(ds: seq<Disease>, cures: seq<string>, succeeds: Disease -> bool)
    requires forall i :: 0 <= i < |ds| ==> !Cured(ds[i], cures, succeeds)
    ensures Uncured(ds, cures, succeeds) == ds
  {
    if ds != [] {
      var init, last := ds[..|ds| - 1], ds[|ds| - 1];
      assert !Cured(last, cures, succeeds);
      UncuredNothing(init, cures, succeeds);
      assert Uncured(ds, cures, succeeds) == init + [last];
      LastSplit(ds);
    }
  }

  lemma LastSplit(ds: seq<Disease>)
    requires ds != []
    ensures ds[..|ds| - 1] + [ds[|ds| - 1]] == ds
  {
  }

  /** The position of the first disease the cure removes, or `|ds|` when there is none. */
  function FirstCured(ds: seq<Disease>, cures: seq<string>, succeeds: Disease -> bool): (k: nat)
    ensures k <= |ds|
    ensures forall j :: 0 <= j < k ==> !Cured(ds[j], cures, succeeds)
    ensures k < |ds| ==> Cured(ds[k], cures, succeeds)
  {
    if ds == [] then 0
    else if Cured(ds[0], cures, succeeds) then 0
    else 1 + FirstCured(ds[1..], cures, succeeds)
  }

  /** The first cured disease is the only position with nothing cured before it and a cure at it. */
  lemma {:induction false} FirstCuredAt(ds: seq<Disease>, cures: seq<string>, succeeds: Disease -> bool, i: nat)
    requires i <= |ds|
    requires forall j :: 0 <= j < i ==> !Cured(ds[j], cures, succeeds)
    requires i < |ds| ==> Cured(ds[i], cures, succeeds)
    ensures FirstCured(ds, cures, succeeds) == i
  {
    if ds != [] && i > 0 {
      FirstCuredAt(ds[1..], cures, succeeds, i - 1);
    }
  }

  /**
   * What a set iterated with `forEach` while the loop removes from it is left
   * holding: the first cured disease is removed, and the iteration fails
   * with a concurrent modification when any disease follows it.
   */
  function CureInterrupted(ds: seq<Disease>, cures: seq<string>, succeeds: Disease -> bool): (r: (seq<Disease>, bool))
    ensures var k := FirstCured(ds, cures, succeeds);
      && (k == |ds| ==> r.0 == ds)
      && (k < |ds| ==> r.0 == ds[..k] + ds[k + 1..])
      && (r.1 <==> k + 1 < |ds|)
  {
    var k := FirstCured(ds, cures, succeeds);
    if k == |ds| then (ds, false) else (ds[..k] + ds[k + 1..], k + 1 < |ds|)
  }

  lemma RemoveAtNoDuplicates(ds: seq<Disease>, k: nat)
    requires k < |ds| && NoDuplicates(ds)
    ensures NoDuplicates(ds[..k] + ds[k + 1..])
  {
    var r := ds[..k] + ds[k + 1..];
    forall i, j | 0 <= i < j < |r|
      ensures r[i] != r[j]
    {
      var i', j' := if i < k then i else i + 1, if j < k then j else j + 1;
      assert r[i] == ds[i'] && r[j] == ds[j'];
    }
  }

  /** Two diseases of the same name and a cure that works on both: the loop removes the first and then fails, so the second survives. */
  lemma CureInterruptedKeepsSecond(succeeds: Disease -> bool)
    requires forall d :: succeeds(d)
    ensures var ds := [Disease(0, "frostbite"), Disease(1, "frostbite")];
      && CureInterrupted(ds, ["frostbite"], succeeds) == ([Disease(1, "frostbite")], true)
      && Uncured(ds, ["frostbite"], succeeds) == []
  {
    var ds := [Disease(0, "frostbite"), Disease(1, "frostbite")];
    assert Cured(ds[0], ["frostbite"], succeeds);
    assert FirstCured(ds, ["frostbite"], succeeds) == 0;
    assert ds[..0] + ds[1..] == [Disease(1, "frostbite")];
    assert Uncured(ds[..1], ["frostbite"], succeeds) == [];
  }

  class DiseaseManager {
    /** Each player's diseases: a LinkedHashSet per player. */
    var playerDiseases: map<PlayerId, seq<Disease>>

    ghost predicate Valid()
      reads this
    {
      forall p :: p in playerDiseases ==> NoDuplicates(playerDiseases[p])
    }

    /** A player's diseases; a player never seen has none. */
    function DiseasesOf(player: PlayerId): seq<Disease>
      reads this
    {
      if player in playerDiseases then playerDiseases[player] else []
    }

    constructor ()
      ensures Valid() && playerDiseases == map[]
    {
      playerDiseases := map[];
    }

    /** `addDisease`: the player's set is created if absent, then the disease is added; other players keep theirs. */
    method AddDisease(player: PlayerId, disease: Disease)
      requires Valid()
      modifies this
      ensures Valid()
      ensures playerDiseases == old(playerDiseases)[player := AddOnce(old(DiseasesOf(player)), disease)]
    {
      playerDiseases := playerDiseases[player := AddOnce(DiseasesOf(player), disease)];
    }

    /** `getDisease`: the first of the player's diseases with that name, or none. */
    function GetDisease(player: PlayerId, diseaseName: string): (r: Option<Disease>)
      reads this
      ensures r.Some? ==> r.value in DiseasesOf(player) && r.value.name == diseaseName
      ensures r.None? <==> forall d :: d in DiseasesOf(player) ==> d.name != diseaseName
    {
      if player in playerDiseases then FindByName(playerDiseases[player], diseaseName) else None
    }

    /**
     * `applyCure` as written: the loop removes from the set it iterates, so
     * the first successful cure ends it, and `failed` reports the
     * concurrent modification raised when a disease followed the removed one.
     */
    method ApplyCureAsWritten(player: PlayerId, cures: seq<string>, succeeds: Disease -> bool)
      returns (failed: bool)
      requires Valid()
      modifies this
      ensures Valid()
      ensures player !in old(playerDiseases) ==> playerDiseases == old(playerDiseases) && !failed
      ensures player in old(playerDiseases) ==>
        var r := CureInterrupted(old(playerDiseases)[player], cures, succeeds);
        playerDiseases == old(playerDiseases)[player := r.0] && failed == r.1
    {
      failed := false;
      if player !in playerDiseases {
        return;
      }
      var ds := playerDiseases[player];
      var i := 0;
      while i < |ds|
        invariant 0 <= i <= |ds|
        invariant forall j :: 0 <= j < i ==> !Cured(ds[j], cures, succeeds)
        invariant playerDiseases == old(playerDiseases)
      {
        if ds[i].name in cures && succeeds(ds[i]) {
          FirstCuredAt(ds, cures, succeeds, i);
          RemoveAtNoDuplicates(ds, i);
          playerDiseases := playerDiseases[player := ds[..i] + ds[i + 1..]];
          failed := i + 1 < |ds|;
          return;
        }
        i := i + 1;
      }
      FirstCuredAt(ds, cures, succeeds, i);
    }

    /**
     * `applyCure`: each of the player's diseases named by the cure is handed
     * to it, and removed when the cure reports success; a player without an
     * entry gets none.
     */
    method ApplyCure(player: PlayerId, cures: seq<string>, succeeds: Disease -> bool)
      requires Valid()
      modifies this
      ensures Valid()
      ensures player !in old(playerDiseases) ==> playerDiseases == old(playerDiseases)
      ensures player in old(playerDiseases) ==>
        playerDiseases == old(playerDiseases)[player := Uncured(old(playerDiseases)[player], cures, succeeds)]
    {
      if player !in playerDiseases {
        return;
      }
      var ds := playerDiseases[player];
      var kept: seq<Disease> := [];
      var i := 0;
      while i < |ds|
        invariant 0 <= i <= |ds|
        invariant kept == Uncured(ds[..i], cures, succeeds)
      {
        assert ds[..i + 1][..i] == ds[..i];
        var d := ds[i];
        if !(d.name in cures && succeeds(d)) {
          kept := kept + [d];
        }
        i := i + 1;
      }
      assert ds[..i] == ds;
      UncuredNoDuplicates(ds, cures, succeeds);
      playerDiseases := playerDiseases[player := kept];
    }
  }
}
