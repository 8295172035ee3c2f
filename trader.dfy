/** The player's trader: where it stands on the star map and how far it has travelled. */
module Traders {

  /** The name a trader gets when none is given ("Trader" in Russian). */
  const DefaultName: string := "Торговец"

  /** The sum of a sequence of route distances. */
  function Sum(s: seq<int>): int
    decreases |s|
  {
    if s == [] then 0 else Sum(s[..|s| - 1]) + s[|s| - 1]
  }

  class Trader {
    var name: string
    /** The id of the planet the trader stands on; -1 before it is placed. */
    var currentPlanetId: int
    var isPlaced: bool
    var completedRoutes: int
    var totalDistance: int
    /** The distances of the routes completed since construction or the last reset. */
    ghost var routes: seq<int>

    /** The two counters summarize the completed routes: how many, and how far in total. */
    ghost predicate Valid()
      reads this
    {
      completedRoutes == |routes| && totalDistance == Sum(routes)
    }

    /** A trader with the default name, not placed anywhere, with no routes behind it. */
    constructor ()
      ensures Valid()
      ensures name == DefaultName && currentPlanetId == -1 && !isPlaced
      ensures completedRoutes == 0 && totalDistance == 0 && routes == []
    {
      name := DefaultName;
      currentPlanetId := -1;
      isPlaced := false;
      completedRoutes := 0;
      totalDistance := 0;
      routes := [];
    }

    /** A trader with the given name, otherwise as the default one. */
    constructor Named(traderName: string)
      ensures Valid()
      ensures name == traderName && currentPlanetId == -1 && !isPlaced
      ensures completedRoutes == 0 && totalDistance == 0 && routes == []
    {
      name := traderName;
      currentPlanetId := -1;
      isPlaced := false;
      completedRoutes := 0;
      totalDistance := 0;
      routes := [];
    }

    /** Moves the trader to planetId. A non-negative id places a trader that was not placed yet;
      * a placed trader stays placed whatever the id. */
    method SetCurrentPlanet(planetId: int)
      modifies this
      ensures currentPlanetId == planetId
      ensures isPlaced == (old(isPlaced) || planetId >= 0)
      ensures old(isPlaced) ==> isPlaced
      ensures name == old(name) && routes == old(routes)
      ensures completedRoutes == old(completedRoutes) && totalDistance == old(totalDistance)
      ensures old(Valid()) ==> Valid()
    {
      currentPlanetId := planetId;
      if !isPlaced && planetId >= 0 {
        isPlaced := true;
      }
    }

    /** Puts the trader on planetId, which places it whatever the id. */
    method PlaceOnPlanet(planetId: int)
      modifies this
      ensures currentPlanetId == planetId && isPlaced
      ensures name == old(name) && routes == old(routes)
      ensures completedRoutes == old(completedRoutes) && totalDistance == old(totalDistance)
      ensures old(Valid()) ==> Valid()
    {
      currentPlanetId := planetId;
      isPlaced := true;
    }

    /** Back to the state of a new trader, keeping the name. */
    method Reset()
      modifies this
      ensures Valid()
      ensures currentPlanetId == -1 && !isPlaced
      ensures completedRoutes == 0 && totalDistance == 0 && routes == []
      ensures name == old(name)
    {
      currentPlanetId := -1;
      isPlaced := false;
      completedRoutes := 0;
      totalDistance := 0;
      routes := [];
    }

    /** Records one more completed route of the given distance. */
    method CompleteRoute(distance: int)
      requires Valid()
      modifies this
      ensures Valid()
      ensures routes == old(routes) + [distance]
      ensures completedRoutes == old(completedRoutes) + 1
      ensures totalDistance == old(totalDistance) + distance
      ensures name == old(name) && currentPlanetId == old(currentPlanetId) && isPlaced == old(isPlaced)
    {
      completedRoutes := completedRoutes + 1;
      totalDistance := totalDistance + distance;
      routes := routes + [distance];
      assert routes[..|routes| - 1] == old(routes);
    }
  }

  /** Routes of non-negative distance never make the total distance negative, and no route is
    * longer than the total. */
  lemma {:induction false} TotalBoundsEachRoute(s: seq<int>)
    requires forall k :: 0 <= k < |s| ==> s[k] >= 0
    ensures Sum(s) >= 0
    ensures forall k :: 0 <= k < |s| ==> s[k] <= Sum(s)
    decreases |s|
  {
    if s != [] {
      var s' := s[..|s| - 1];
      TotalBoundsEachRoute(s');
      forall k | 0 <= k < |s| ensures s[k] <= Sum(s) {
        if k < |s'| {
          assert s[k] == s'[k];
        }
      }
    }
  }
}
