/**
 The short-circuit folds of flow/circuit.go. Both range over an iterator of
 conditions and return from inside the loop, which stops the iterator; the
 number of conditions pulled is part of the result.
 */
module FlowCircuit {

  /** The folded value and how many conditions were pulled to obtain it. */
  datatype Verdict = Verdict(value: bool, consumed: nat)

  /** Any: `c1 || c2 || ... || cn`, stopping at the first true condition. */
  function Any(conditions: seq<bool>): (v: Verdict)
    ensures v.consumed <= |conditions|
    ensures v.value <==> exists i :: 0 <= i < |conditions| && conditions[i]
    ensures v.value ==> 0 < v.consumed && conditions[v.consumed - 1]
    ensures forall j :: 0 <= j < v.consumed - 1 ==> !conditions[j]
    ensures !v.value ==> v.consumed == |conditions|
  {
    if |conditions| == 0 then Verdict(false, 0)
    else if conditions[0] then Verdict(true, 1)
    else
      var rest := Any(conditions[1..]);
      assert forall i :: 0 < i < |conditions| ==> conditions[i] == conditions[1..][i - 1];
      Verdict(rest.value, rest.consumed + 1)
  }

  /** All: `c1 && c2 && ... && cn`, stopping at the first false condition. */
  function All(conditions: seq<bool>): (v: Verdict)
    ensures v.consumed <= |conditions|
    ensures v.value <==> forall i :: 0 <= i < |conditions| ==> conditions[i]
    ensures !v.value ==> 0 < v.consumed && !conditions[v.consumed - 1]
    ensures forall j :: 0 <= j < v.consumed - 1 ==> conditions[j]
    ensures v.value ==> v.consumed == |conditions|
  {
    if |conditions| == 0 then Verdict(true, 0)
    else if !conditions[0] then Verdict(false, 1)
    else
      var rest := All(conditions[1..]);
      assert forall i :: 0 < i < |conditions| ==> conditions[i] == conditions[1..][i - 1];
      Verdict(rest.value, rest.consumed + 1)
  }

  function Negate(conditions: seq<bool>): (r: seq<bool>)
    ensures |r| == |conditions|
  {
    seq(|conditions|, i requires 0 <= i < |conditions| => !conditions[i])
  }

  /** De Morgan, including the short circuit: All over the conditions stops
      exactly where Any over their negations stops, with the opposite value. */
  lemma {:induction false} AllIsNotAnyOfNegation(conditions: seq<bool>)
    ensures All(conditions) == Verdict(!Any(Negate(conditions)).value, Any(Negate(conditions)).consumed)
    decreases |conditions|
  {
    if |conditions| > 0 && conditions[0] {
      assert Negate(conditions)[1..] == Negate(conditions[1..]);
      AllIsNotAnyOfNegation(conditions[1..]);
    }
  }
}
