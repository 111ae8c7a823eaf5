/** The scan for `<quantity> <cheese>` pairs and the removal of the tokens it consumed
    (cloudflare-worker/index.js:28-42). */
module Items {
  import opened Chars
  import opened Strings
  import opened Numbers

  datatype Item = Item(qty: int, name: string)

  /** `cheesesList`. */
  const Cheeses: seq<string> := ["буррата", "страчателла", "моцарелла"]

  /** Tokens `i` and `i + 1` form a pair: the first parses as an integer and the second,
      lower-cased, is a cheese name. */
  predicate Qualifies(words: seq<string>, i: int) {
    0 <= i && i + 1 < |words| && ParseInt(words[i]).Some? && LowerStr(words[i + 1]) in Cheeses
  }

  function ItemAt(words: seq<string>, i: int): Item
    requires Qualifies(words, i)
  {
    Item(ParseInt(words[i]).value, LowerStr(words[i + 1]))
  }

  /** The scan's bound `words.length - 1`, which is no iteration at all for fewer than
      two words. */
  function ScanEnd(words: seq<string>): nat {
    if |words| == 0 then 0 else |words| - 1
  }

  /** The scan's test as a function of the index. */
  function QualifiesAt(words: seq<string>): int -> bool {
    i => Qualifies(words, i)
  }

  /** The indices below `n` at which `pair` holds, in increasing order: the starts of the
      pairs found by the first `n` iterations of the scan. */
  function Starts(pair: int -> bool, n: nat): seq<nat>
    decreases n
  {
    if n == 0 then [] else Starts(pair, n - 1) + (if pair(n - 1) then [n - 1] else [])
  }

  /** The indices marked in `used` by the first `n` iterations: both tokens of each pair. */
  function Marked(pair: int -> bool, n: nat): set<nat>
    decreases n
  {
    if n == 0 then {} else Marked(pair, n - 1) + (if pair(n - 1) then {n - 1, n} else {})
  }

  /** The items recorded by the first `n` iterations of the scan. */
  function ItemsBefore(words: seq<string>, n: nat): seq<Item>
    decreases n
  {
    if n == 0 then []
    else ItemsBefore(words, n - 1) + (if Qualifies(words, n - 1) then [ItemAt(words, n - 1)] else [])
  }

  /** A cheese name never parses as an integer: it starts with a Cyrillic letter. */
  lemma {:induction false} CheeseIsNoQuantity(w: string)
    requires LowerStr(w) in Cheeses
    ensures ParseInt(w) == None
  {
    assert |LowerStr(w)| > 0;
    var c := w[0];
    assert Lower(c) == LowerStr(w)[0];
    assert Lower(c) in {'б', 'с', 'м'};
    assert !IsDigit(c);
    assert c != '+' && c != '-';
    ParseIntRejects(w);
  }

  /** `pair` never holds at two neighbouring indices. */
  ghost predicate Disjoint(pair: int -> bool) {
    forall i, j :: pair(i) && j == i + 1 ==> !pair(j)
  }

  /** No two pairs share a token: the second token of a pair is a name, never a
      quantity, so it never starts a pair. */
  lemma {:induction false} PairsDoNotOverlap(words: seq<string>)
    ensures Disjoint(QualifiesAt(words))
  {
    forall i, j | Qualifies(words, i) && j == i + 1
      ensures !Qualifies(words, j)
    {
      CheeseIsNoQuantity(words[i + 1]);
    }
  }

  /** The starts are exactly the indices below `n` where `pair` holds. */
  lemma {:induction false} StartsMembers(pair: int -> bool, n: nat)
    ensures forall i :: i in Starts(pair, n) <==> 0 <= i < n && pair(i)
    decreases n
  {
    if n > 0 {
      StartsMembers(pair, n - 1);
    }
  }

  /** The starts increase, with at least one index between neighbouring starts. */
  lemma {:induction false} StartsApart(pair: int -> bool, n: nat)
    requires Disjoint(pair)
    ensures forall k :: 0 <= k < |Starts(pair, n)| - 1 ==> Starts(pair, n)[k] + 2 <= Starts(pair, n)[k + 1]
    decreases n
  {
    if n > 0 {
      StartsApart(pair, n - 1);
      var p := Starts(pair, n - 1);
      var q := Starts(pair, n);
      if pair(n - 1) {
        assert q == p + [n - 1];
        if |p| > 0 {
          StartsMembers(pair, n - 1);
          var last := p[|p| - 1];
          assert last in p;
          assert last + 2 <= n - 1;
        }
        forall k | 0 <= k < |q| - 1
          ensures q[k] + 2 <= q[k + 1]
        {
          if k + 1 < |p| {
            assert q[k] == p[k] && q[k + 1] == p[k + 1];
          }
        }
      } else {
        assert q == p;
      }
    }
  }

  /** Every marked index is at most `n`, and `n` itself is marked only when a pair
      starts at `n - 1`. */
  lemma {:induction false} MarkedBounds(pair: int -> bool, n: nat)
    ensures forall i :: i in Marked(pair, n) ==> i <= n
    ensures n in Marked(pair, n) ==> n >= 1 && pair(n - 1)
    decreases n
  {
    if n > 0 {
      MarkedBounds(pair, n - 1);
    }
  }

  lemma {:induction false} CardAddTwo(u: set<nat>, a: nat, b: nat)
    requires a !in u && b !in u && a != b
    ensures |u + {a, b}| == |u| + 2
  {
    var v := u + {a};
    assert |v| == |u| + 1;
    assert b !in v;
    assert u + {a, b} == v + {b};
  }

  /** A pair starting at `n - 1` marks two indices not marked before it. */
  lemma {:induction false} MarkedGrows(pair: int -> bool, n: nat)
    requires Disjoint(pair) && n >= 1 && pair(n - 1)
    ensures |Marked(pair, n)| == |Marked(pair, n - 1)| + 2
  {
    var u := Marked(pair, n - 1);
    MarkedBounds(pair, n - 1);
    assert pair(n - 2) ==> !pair(n - 1);
    assert n - 1 !in u && n !in u;
    CardAddTwo(u, n - 1, n);
    assert Marked(pair, n) == u + {n - 1, n};
  }

  /** Two indices are marked per start: no index is marked twice. */
  lemma {:induction false} MarkedCount(pair: int -> bool, n: nat)
    requires Disjoint(pair)
    ensures |Marked(pair, n)| == 2 * |Starts(pair, n)|
    decreases n
  {
    if n > 0 {
      MarkedCount(pair, n - 1);
      if pair(n - 1) {
        MarkedGrows(pair, n);
      } else {
        assert Marked(pair, n) == Marked(pair, n - 1) + {};
      }
    }
  }

  /** Index `i` belongs to a pair found below `n`: one starts at `i` or just before it. */
  predicate InPair(pair: int -> bool, n: nat, i: nat) {
    (i < n && pair(i)) || (1 <= i <= n && pair(i - 1))
  }

  /** The marked indices are exactly the tokens of the pairs. */
  lemma {:induction false} MarkedIsPairs(pair: int -> bool, n: nat)
    ensures forall i: nat :: i in Marked(pair, n) <==> InPair(pair, n, i)
    decreases n
  {
    if n > 0 {
      MarkedIsPairs(pair, n - 1);
      forall i: nat
        ensures i in Marked(pair, n) <==> InPair(pair, n, i)
      {
        assert i in Marked(pair, n - 1) <==> InPair(pair, n - 1, i);
      }
    }
  }

  /** Item `k` comes from the `k`-th pair: its quantity is `parseInt` of the token at the
      pair's start and its name the next token lower-cased, so the items are in token
      order and every name is a cheese. */
  lemma {:induction false} ItemsFromStarts(words: seq<string>, n: nat)
    ensures |ItemsBefore(words, n)| == |Starts(QualifiesAt(words), n)|
    ensures forall k :: 0 <= k < |Starts(QualifiesAt(words), n)| ==>
              Qualifies(words, Starts(QualifiesAt(words), n)[k])
              && ItemsBefore(words, n)[k] == ItemAt(words, Starts(QualifiesAt(words), n)[k])
    ensures forall k :: 0 <= k < |ItemsBefore(words, n)| ==> ItemsBefore(words, n)[k].name in Cheeses
    decreases n
  {
    if n > 0 {
      ItemsFromStarts(words, n - 1);
    }
  }

  /** Two tokens are consumed per item. */
  lemma {:induction false} ScanCount(words: seq<string>)
    ensures |Marked(QualifiesAt(words), ScanEnd(words))| == 2 * |ItemsBefore(words, ScanEnd(words))|
  {
    var n := ScanEnd(words);
    ItemsFromStarts(words, n);
    PairsDoNotOverlap(words);
    MarkedCount(QualifiesAt(words), n);
  }

  /** Every consumed token is a token of the message. */
  lemma {:induction false} ScanBounds(words: seq<string>)
    ensures forall i :: i in Marked(QualifiesAt(words), ScanEnd(words)) ==> i < |words|
  {
    var n := ScanEnd(words);
    MarkedBounds(QualifiesAt(words), n);
    if n in Marked(QualifiesAt(words), n) {
      assert QualifiesAt(words)(n - 1);
      assert Qualifies(words, n - 1);
    }
  }

  /** What the whole scan finds: cheese names only, two consumed tokens per item, all of
      them tokens of the message, and exactly the tokens of the pairs. */
  lemma {:induction false} ScanResult(words: seq<string>)
    ensures forall k :: 0 <= k < |ItemsBefore(words, ScanEnd(words))| ==> ItemsBefore(words, ScanEnd(words))[k].name in Cheeses
    ensures |Marked(QualifiesAt(words), ScanEnd(words))| == 2 * |ItemsBefore(words, ScanEnd(words))|
    ensures forall i :: i in Marked(QualifiesAt(words), ScanEnd(words)) ==> i < |words|
    ensures forall i: nat :: i in Marked(QualifiesAt(words), ScanEnd(words)) <==> InPair(QualifiesAt(words), ScanEnd(words), i)
  {
    ItemsFromStarts(words, ScanEnd(words));
    ScanCount(words);
    ScanBounds(words);
    MarkedIsPairs(QualifiesAt(words), ScanEnd(words));
  }

  /** One iteration of the scan: the pair test at `i` decides what is recorded. */
  lemma {:induction false} ScanStep(words: seq<string>, i: nat)
    requires i + 1 < |words|
    ensures var found := ParseInt(words[i]).Some? && LowerStr(words[i + 1]) in Cheeses;
      && ItemsBefore(words, i + 1)
         == ItemsBefore(words, i) + (if found then [Item(ParseInt(words[i]).value, LowerStr(words[i + 1]))] else [])
      && Marked(QualifiesAt(words), i + 1) == Marked(QualifiesAt(words), i) + (if found then {i, i + 1} else {})
  {
    assert QualifiesAt(words)(i) == Qualifies(words, i);
  }

  /** The loop at cloudflare-worker/index.js:32-40. */
  method ScanItems(words: seq<string>) returns (cheeses: seq<Item>, used: set<nat>)
    ensures cheeses == ItemsBefore(words, ScanEnd(words))
    ensures used == Marked(QualifiesAt(words), ScanEnd(words))
    ensures forall k :: 0 <= k < |cheeses| ==> cheeses[k].name in Cheeses
    ensures |used| == 2 * |cheeses|
    ensures forall i :: i in used ==> i < |words|
    ensures forall i: nat :: i in used <==> InPair(QualifiesAt(words), ScanEnd(words), i)
  {
    cheeses := [];
    used := {};
    var i := 0;
    while i < |words| - 1
      invariant 0 <= i <= ScanEnd(words)
      invariant cheeses == ItemsBefore(words, i)
      invariant used == Marked(QualifiesAt(words), i)
    {
      var qty := ParseInt(words[i]);
      var name := LowerStr(words[i + 1]);
      ScanStep(words, i);
      if qty.Some? && name in Cheeses {
        cheeses := cheeses + [Item(qty.value, name)];
        used := used + {i, i + 1};
      }
      i := i + 1;
    }
    ScanResult(words);
  }

  /** `parseInt` keeps only the leading digits: a date-shaped `5.6` just before a cheese
      name is taken as the quantity 5. */
  lemma {:induction false} DateBeforeCheeseIsQuantity()
    ensures ItemsBefore(["5.6", "буррата"], ScanEnd(["5.6", "буррата"])) == [Item(5, "буррата")]
  {
    var words := ["5.6", "буррата"];
    assert "5.6" == "5" + ".6";
    ParseIntDigitsThen("5", ".6");
    assert LowerStr("буррата") == "буррата";
    assert Qualifies(words, 0);
  }

  /** Nothing makes a quantity positive: `-3 Моцарелла` is an item of quantity -3. */
  lemma {:induction false} NegativeQuantityIsKept()
    ensures ItemsBefore(["-3", "Моцарелла"], ScanEnd(["-3", "Моцарелла"])) == [Item(-3, "моцарелла")]
  {
    var words := ["-3", "Моцарелла"];
    assert "-3" == ['-'] + ("3" + "");
    ParseIntNegative("3", "");
    assert LowerStr("Моцарелла") == "моцарелла";
    assert Qualifies(words, 0);
  }

  /** `words.filter((_, i) => !used.has(i))`. */
  function Remaining(words: seq<string>, used: set<nat>): (r: seq<string>)
    ensures |r| <= |words|
    ensures forall w :: w in r ==> w in words
    decreases |words|
  {
    if words == [] then []
    else Remaining(words[..|words| - 1], used)
         + (if |words| - 1 in used then [] else [words[|words| - 1]])
  }

  /** The indices below `n` that are not in `used`, in increasing order. */
  function KeptIndices(n: nat, used: set<nat>): seq<nat>
    decreases n
  {
    if n == 0 then [] else KeptIndices(n - 1, used) + (if n - 1 in used then [] else [n - 1])
  }

  function UsedBelow(used: set<nat>, n: nat): set<nat> {
    set i | 0 <= i < n && i in used
  }

  /** The kept indices are exactly those below `n` and not used, strictly increasing, and
      there are `n` minus the number of used ones below `n`. */
  lemma {:induction false} KeptIndicesSpec(n: nat, used: set<nat>)
    ensures forall i :: i in KeptIndices(n, used) <==> 0 <= i < n && i !in used
    ensures forall k :: 0 <= k < |KeptIndices(n, used)| - 1 ==> KeptIndices(n, used)[k] < KeptIndices(n, used)[k + 1]
    ensures |KeptIndices(n, used)| + |UsedBelow(used, n)| == n
    decreases n
  {
    if n > 0 {
      KeptIndicesSpec(n - 1, used);
      var k := KeptIndices(n - 1, used);
      if |k| > 0 {
        assert k[|k| - 1] in k;
      }
      if n - 1 in used {
        assert UsedBelow(used, n) == UsedBelow(used, n - 1) + {n - 1};
      } else {
        assert UsedBelow(used, n) == UsedBelow(used, n - 1);
      }
    }
  }

  /** The remaining words are the words at the kept indices, in their original order. */
  lemma {:induction false} RemainingAtKept(words: seq<string>, used: set<nat>)
    ensures |Remaining(words, used)| == |KeptIndices(|words|, used)|
    ensures forall k :: 0 <= k < |Remaining(words, used)| ==>
              KeptIndices(|words|, used)[k] < |words|
              && Remaining(words, used)[k] == words[KeptIndices(|words|, used)[k]]
    decreases |words|
  {
    if words != [] {
      var init := words[..|words| - 1];
      RemainingAtKept(init, used);
      KeptIndicesSpec(|words|, used);
      forall k | 0 <= k < |KeptIndices(|init|, used)|
        ensures KeptIndices(|init|, used)[k] < |init|
      {
        KeptIndicesSpec(|init|, used);
        assert KeptIndices(|init|, used)[k] in KeptIndices(|init|, used);
      }
    }
  }

  /** When every used index is an index of `words`, exactly `|used|` words are removed. */
  lemma {:induction false} RemainingCount(words: seq<string>, used: set<nat>)
    requires forall i :: i in used ==> i < |words|
    ensures |Remaining(words, used)| == |words| - |used|
  {
    RemainingAtKept(words, used);
    KeptIndicesSpec(|words|, used);
    assert UsedBelow(used, |words|) == used;
  }
}
