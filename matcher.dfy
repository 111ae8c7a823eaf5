/** `findClosest` (cloudflare-worker/index.js:120-130): the first client name at the
    least edit distance from the input, offered only when that distance is at most 2. */
module Matcher {
  import opened Strings
  import opened EditDistance

  /** Entry `k` is the first entry of `list` at the least distance from `input`. */
  predicate IsFirstClosest(input: string, list: seq<string>, k: nat) {
    k < |list|
    && (forall j :: 0 <= j < |list| ==> Distance(input, list[k]) <= Distance(input, list[j]))
    && (forall j :: 0 <= j < k ==> Distance(input, list[j]) > Distance(input, list[k]))
  }

  /** The index the scan holds after the first `n` entries: it moves only on a strictly
      smaller distance, so it is the first entry at the least distance. */
  function FirstMinIndex(input: string, list: seq<string>, n: nat): (k: nat)
    requires 1 <= n <= |list|
    ensures k < n
    ensures forall j :: 0 <= j < n ==> Distance(input, list[k]) <= Distance(input, list[j])
    ensures forall j :: 0 <= j < k ==> Distance(input, list[j]) > Distance(input, list[k])
  {
    if n == 1 then 0
    else
      var k := FirstMinIndex(input, list, n - 1);
      if Distance(input, list[n - 1]) < Distance(input, list[k]) then n - 1 else k
  }

  /** The result of `findClosest`: `null` for an empty list; otherwise the first entry at
      the least distance, when that distance is at most 2. */
  function Closest(input: string, list: seq<string>): (r: Option<string>)
    ensures list == [] ==> r == None
    ensures r.Some? <==> exists j :: 0 <= j < |list| && Distance(input, list[j]) <= 2
    ensures r.Some? ==> exists k: nat :: IsFirstClosest(input, list, k) && list[k] == r.value
                                    && Distance(input, list[k]) <= 2
  {
    if |list| == 0 then None
    else
      var k := FirstMinIndex(input, list, |list|);
      assert IsFirstClosest(input, list, k);
      if Distance(input, list[k]) <= 2 then Some(list[k]) else None
  }

  /** The loop of `findClosest`; `min` is `None` while it is still `Infinity`. */
  method FindClosest(input: string, list: seq<string>) returns (closest: Option<string>)
    ensures closest == Closest(input, list)
  {
    var best: Option<string> := None;
    var min: Option<nat> := None;
    ghost var bestIndex: nat := 0;
    for k := 0 to |list|
      invariant min.None? <==> k == 0
      invariant k > 0 ==> bestIndex == FirstMinIndex(input, list, k)
                          && min == Some(Distance(input, list[bestIndex]))
                          && best == Some(list[bestIndex])
    {
      var dist := Levenshtein(input, list[k]);
      if min.None? || dist < min.value {
        min := Some(dist);
        best := Some(list[k]);
        bestIndex := k;
      }
    }
    closest := if min.Some? && min.value <= 2 then best else None;
  }

  /** A name that is in the list is its own closest match. */
  lemma {:induction false} ExactNameIsClosest(name: string, list: seq<string>)
    requires name in list
    ensures Closest(name, list) == Some(name)
  {
    var i :| 0 <= i < |list| && list[i] == name;
    DistanceProperties(name, name);
    var k := FirstMinIndex(name, list, |list|);
    assert Distance(name, list[k]) <= Distance(name, list[i]);
    DistanceProperties(name, list[k]);
  }

  /** A name that is not in the list is offered a different entry, one to two edits
      away. */
  lemma {:induction false} SuggestionIsNear(name: string, list: seq<string>)
    requires name !in list && Closest(name, list).Some?
    ensures Closest(name, list).value in list
    ensures Closest(name, list).value != name
    ensures 1 <= Distance(name, Closest(name, list).value) <= 2
  {
    var k: nat :| IsFirstClosest(name, list, k) && list[k] == Closest(name, list).value
             && Distance(name, list[k]) <= 2;
    DistanceProperties(name, list[k]);
  }
}
