// Searches that several tables make in the same way
module Search {
  // The first element of a key, or the length
  function FirstWith<T, K(==)>(s: seq<T>, keyOf: T -> K, key: K): (at: nat)
    ensures at <= |s| && (at < |s| ==> keyOf(s[at]) == key)
    ensures forall i :: 0 <= i < at ==> keyOf(s[i]) != key
  {
    if s == [] || keyOf(s[0]) == key then 0 else 1 + FirstWith(s[1..], keyOf, key)
  }

  // The first of the elements that rank lowest
  function FirstLeast<T>(s: seq<T>, rank: T -> int): (at: nat)
    requires s != []
    ensures at < |s|
    ensures forall i :: 0 <= i < |s| ==> rank(s[at]) <= rank(s[i])
    ensures forall i :: 0 <= i < at ==> rank(s[at]) < rank(s[i])
  {
    if |s| == 1 then 0
    else
      var best := FirstLeast(s[..|s| - 1], rank);
      if rank(s[|s| - 1]) < rank(s[best]) then |s| - 1 else best
  }
}
