/** The client name: the words left after the item scan, without the `DD.MM`-shaped
    tokens, joined with spaces and lower-cased (cloudflare-worker/index.js:46-47). */
module Client {
  import opened Chars
  import opened Strings
  import opened Dates

  /** `remainingWords.filter((w) => !/^\d{1,2}\.\d{1,2}$/.test(w))`. */
  function DropDateShaped(words: seq<string>): (r: seq<string>)
    ensures |r| <= |words|
    ensures forall w :: w in r <==> w in words && !IsDateShaped(w)
    decreases |words|
  {
    if words == [] then []
    else
      var rest := DropDateShaped(words[1..]);
      assert forall w :: w in words <==> w == words[0] || w in words[1..];
      (if IsDateShaped(words[0]) then [] else [words[0]]) + rest
  }

  /** The filter works word by word: filtering a concatenation concatenates the
      filtered parts, so the kept words stay in their order and keep their repetitions. */
  lemma {:induction false} DropDateShapedAppend(a: seq<string>, b: seq<string>)
    ensures DropDateShaped(a + b) == DropDateShaped(a) + DropDateShaped(b)
    decreases |a|
  {
    if a == [] {
      assert a + b == b;
    } else {
      assert (a + b)[0] == a[0] && (a + b)[1..] == a[1..] + b;
      DropDateShapedAppend(a[1..], b);
    }
  }

  /** One word is kept exactly when it is not date-shaped. */
  lemma {:induction false} DropDateShapedOne(w: string)
    ensures DropDateShaped([w]) == if IsDateShaped(w) then [] else [w]
  {
    assert [w][1..] == [];
  }

  /** Every word lower-cased. */
  function LowerAll(words: seq<string>): (r: seq<string>)
    ensures |r| == |words|
    ensures forall k :: 0 <= k < |r| ==> r[k] == LowerStr(words[k])
  {
    seq(|words|, k requires 0 <= k < |words| => LowerStr(words[k]))
  }

  /** `remainingWords.join(" ").toLowerCase().trim()`. */
  function ClientName(remaining: seq<string>): (name: string)
    ensures Trimmed(name)
  {
    Trim(LowerStr(Join(DropDateShaped(remaining), " ")))
  }

  /** Lower-casing the joined words is joining the lower-cased words, since a space
      lower-cases to itself. */
  lemma {:induction false} LowerStrJoin(parts: seq<string>)
    ensures LowerStr(Join(parts, " ")) == Join(LowerAll(parts), " ")
    decreases |parts|
  {
    if |parts| > 1 {
      LowerStrJoin(parts[1..]);
      LowerStrAppend(parts[0] + " ", Join(parts[1..], " "));
      LowerStrAppend(parts[0], " ");
      assert LowerStr(" ") == " ";
      assert LowerAll(parts)[1..] == LowerAll(parts[1..]);
    }
  }

  /** Words that are non-empty and hold no white space, joined with single spaces,
      begin with the first word's first character and end with the last word's last. */
  lemma {:induction false} JoinEdges(parts: seq<string>)
    requires |parts| >= 1
    requires forall k :: 0 <= k < |parts| ==> parts[k] != ""
    ensures |Join(parts, " ")| >= |parts[0]|
    ensures Join(parts, " ")[0] == parts[0][0]
    ensures Join(parts, " ")[|Join(parts, " ")| - 1] == parts[|parts| - 1][|parts[|parts| - 1]| - 1]
    decreases |parts|
  {
    if |parts| > 1 {
      JoinEdges(parts[1..]);
    }
  }

  /** For words that are non-empty and hold no white space (the tokens of the message)
      the closing `trim` removes nothing: the name is the kept words, lower-cased and
      joined with single spaces; it has no white space at either end, and it is empty
      exactly when no word is kept. */
  lemma {:induction false} ClientNameShape(remaining: seq<string>)
    requires forall k :: 0 <= k < |remaining| ==> remaining[k] != "" && NoSpace(remaining[k])
    ensures ClientName(remaining) == Join(LowerAll(DropDateShaped(remaining)), " ")
    ensures Trimmed(ClientName(remaining))
    ensures ClientName(remaining) == "" <==> DropDateShaped(remaining) == []
  {
    var kept := DropDateShaped(remaining);
    var lowered := LowerAll(kept);
    LowerStrJoin(kept);
    forall k | 0 <= k < |lowered|
      ensures lowered[k] != "" && NoSpace(lowered[k])
    {
      assert kept[k] in kept;
      assert kept[k] in remaining;
      LowerKeepsToken(kept[k]);
    }
    var joined := Join(lowered, " ");
    if |lowered| >= 1 {
      JoinEdges(lowered);
      assert lowered[0] != "" && !IsSpace(lowered[0][0]);
      var last := lowered[|lowered| - 1];
      assert last != "" && !IsSpace(last[|last| - 1]);
      assert Trimmed(joined);
    }
    TrimOfTrimmed(joined);
  }
}
