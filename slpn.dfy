/** A stochastic labelled Petri net that is built by appending places, transitions and arcs. */
module Slpn {
  import opened Wrappers

  /** The label given to every silent transition. */
  const SILENT := "silent"

  /** One transition entry; the weight is None when its text could not be read as a number. */
  datatype Transition = Transition(name: string, weight: Option<real>)

  /** The value of a net: its places, initial marking, transitions and the two arc lists
      (place to transition, and transition to place). */
  datatype Net = Net(places: seq<int>, marking: map<int, int>, transitions: seq<Transition>,
                     arcsPT: seq<(int, int)>, arcsTP: seq<(int, int)>)
  {
    /** A new place is numbered by the count of places before it. */
    function AddPlace(): Net {
      this.(places := places + [|places|])
    }

    function AddToMarking(place: int, tokens: int): Net {
      this.(marking := marking[place := tokens])
    }

    function AddTransition(name: string, weight: Option<real>): Net {
      this.(transitions := transitions + [Transition(name, weight)])
    }

    function AddPlaceTransitionArc(place: int, transition: int): Net {
      this.(arcsPT := arcsPT + [(place, transition)])
    }

    function AddTransitionPlaceArc(transition: int, place: int): Net {
      this.(arcsTP := arcsTP + [(transition, place)])
    }

    /** Every place is its own index. */
    predicate PlacesIndexed() {
      forall i :: 0 <= i < |places| ==> places[i] == i
    }
  }

  const EmptyNet := Net([], map[], [], [], [])

  /** The net after k calls of AddPlace. */
  function AddPlaces(net: Net, k: nat): Net {
    if k == 0 then net else AddPlaces(net, k - 1).AddPlace()
  }

  /** After k places are added to an empty net, the places are exactly 0, ..., k-1 and
      nothing else has changed. */
  lemma {:induction false} AddPlacesNumbers(k: nat)
    ensures AddPlaces(EmptyNet, k).places == seq(k, i => i)
    ensures AddPlaces(EmptyNet, k).(places := []) == EmptyNet
  {
    if k > 0 {
      AddPlacesNumbers(k - 1);
    }
  }

  /** Adding a place keeps every place equal to its index. */
  lemma {:induction false} AddPlaceKeepsIndexed(net: Net)
    requires net.PlacesIndexed()
    ensures net.AddPlace().PlacesIndexed() && |net.AddPlace().places| == |net.places| + 1
  {
  }

  /** Marking a place sets or overwrites exactly that key. */
  lemma {:induction false} AddToMarkingOneKey(net: Net, place: int, tokens: int, q: int)
    ensures var m := net.AddToMarking(place, tokens).marking;
      place in m && m[place] == tokens &&
      (q != place ==> (q in m <==> q in net.marking) && (q in m ==> m[q] == net.marking[q]))
  {
  }

  class StochasticLabelledPetriNet {
    var places: seq<int>
    var initialMarking: map<int, int>
    var transitions: seq<Transition>
    var arcsPT: seq<(int, int)>
    var arcsTP: seq<(int, int)>

    function Value(): Net
      reads this
    {
      Net(places, initialMarking, transitions, arcsPT, arcsTP)
    }

    constructor ()
      ensures Value() == EmptyNet
    {
      places := [];
      initialMarking := map[];
      transitions := [];
      arcsPT := [];
      arcsTP := [];
    }

    method AddPlace()
      modifies this
      ensures Value() == old(Value()).AddPlace()
      ensures places == old(places) + [|old(places)|]
    {
      places := places + [|places|];
    }

    method AddPlaceToInitialMarking(placeIndex: int, tokens: int)
      modifies this
      ensures Value() == old(Value()).AddToMarking(placeIndex, tokens)
    {
      initialMarking := initialMarking[placeIndex := tokens];
    }

    method AddTransition(name: string, weight: Option<real>)
      modifies this
      ensures Value() == old(Value()).AddTransition(name, weight)
    {
      transitions := transitions + [Transition(name, weight)];
    }

    /** The same as AddTransition with the label "silent". */
    method AddSilentTransition(weight: Option<real>)
      modifies this
      ensures Value() == old(Value()).AddTransition(SILENT, weight)
    {
      AddTransition(SILENT, weight);
    }

    method AddPlaceTransitionArc(placeIndex: int, transitionIndex: int)
      modifies this
      ensures Value() == old(Value()).AddPlaceTransitionArc(placeIndex, transitionIndex)
      ensures arcsTP == old(arcsTP)
    {
      arcsPT := arcsPT + [(placeIndex, transitionIndex)];
    }

    method AddTransitionPlaceArc(transitionIndex: int, placeIndex: int)
      modifies this
      ensures Value() == old(Value()).AddTransitionPlaceArc(transitionIndex, placeIndex)
      ensures arcsPT == old(arcsPT)
    {
      arcsTP := arcsTP + [(transitionIndex, placeIndex)];
    }
  }
}
