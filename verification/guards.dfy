/** The ordered guard chain consulted after the structural check. */
module Guards {
  import opened Options
  import opened Machines

  /** Every guard in the chain permits the move `from -> to`. */
  predicate AllPermit<T>(guards: seq<Guard<T>>, from: T, to: T)
  {
    forall i :: 0 <= i < |guards| ==> guards[i](from, to)
  }

  /**
    Consults the guards in registration order and stops at the first veto,
    answering its position; the guards after it are never asked.
  */
  function FirstVeto<T>(guards: seq<Guard<T>>, from: T, to: T): (r: Option<nat>)
    ensures r.Some? ==> r.value < |guards| && !guards[r.value](from, to)
    ensures r.Some? ==> forall j :: 0 <= j < r.value ==> guards[j](from, to)
    ensures r.None? <==> AllPermit(guards, from, to)
    decreases |guards|
  {
    if |guards| == 0 then None
    else if !guards[0](from, to) then Some(0)
    else match FirstVeto(guards[1..], from, to)
      case None => None
      case Some(i) => Some(i + 1)
  }

  /** Only the guards up to and including the first veto decide the outcome. */
  lemma LaterGuardsNotConsulted<T>(guards: seq<Guard<T>>, rest: seq<Guard<T>>, from: T, to: T)
    requires FirstVeto(guards, from, to).Some?
    ensures FirstVeto(guards[..FirstVeto(guards, from, to).value + 1] + rest, from, to)
         == FirstVeto(guards, from, to)
  {
    var i := FirstVeto(guards, from, to).value;
    var g := guards[..i + 1] + rest;
    assert g[i] == guards[i];
    assert forall j :: 0 <= j < i ==> g[j] == guards[j];
  }
}
