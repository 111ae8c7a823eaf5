/** Tokenisation of the order text (cloudflare-worker/index.js:21-26): a space is put
    between a digit and an adjacent letter, the text is split on runs of white space,
    every piece is trimmed and the empty pieces are dropped. */
module Tokenizer {
  import opened Chars
  import opened Strings

  /** No character satisfying `left` is directly followed by one satisfying `right`. */
  predicate NoAdjacent(s: string, left: char -> bool, right: char -> bool) {
    forall i :: 0 <= i < |s| - 1 ==> !(left(s[i]) && right(s[i + 1]))
  }

  /** One global `replace(/(L)(R)/g, "$1 $2")`: every match is a character of class
      `left` followed by one of class `right`; a space goes between them and the
      search resumes after the match. */
  function SpaceBetween(s: string, left: char -> bool, right: char -> bool): (r: string)
    ensures s != [] ==> r != [] && r[0] == s[0]
    ensures |s| <= 1 ==> r == s
    decreases |s|
  {
    if |s| < 2 then s
    else if left(s[0]) && right(s[1]) then [s[0], ' ', s[1]] + SpaceBetween(s[2..], left, right)
    else [s[0]] + SpaceBetween(s[1..], left, right)
  }

  /** What the replacement puts where `x` meets `y`: a space exactly when `x` ends with
      a `left` character and `y` starts with a `right` one. */
  function Junction(x: string, y: string, left: char -> bool, right: char -> bool): string {
    if x != [] && y != [] && left(x[|x| - 1]) && right(y[0]) then " " else ""
  }

  /** For disjoint classes the replacement works piece by piece: on a concatenation it
      replaces within each part and adds one space where the parts meet, if a match
      straddles the seam. With the single characters it leaves alone, this fixes the
      result: a space at each `left`-`right` junction and nothing else. */
  lemma {:induction false} SpaceBetweenAppend(x: string, y: string, left: char -> bool, right: char -> bool)
    requires forall c :: !(left(c) && right(c))
    ensures SpaceBetween(x + y, left, right)
            == SpaceBetween(x, left, right) + (Junction(x, y, left, right) + SpaceBetween(y, left, right))
    decreases |x|, 1
  {
    if x == [] {
      assert x + y == y;
    } else if |x| == 1 {
      SpaceBetweenAppendChar(x, y, left, right);
    } else if left(x[0]) && right(x[1]) {
      SpaceBetweenAppendMatch(x, y, left, right);
    } else {
      SpaceBetweenAppendSkip(x, y, left, right);
    }
  }

  /** `SpaceBetweenAppend` when a match starts `x`. */
  lemma {:induction false} SpaceBetweenAppendMatch(x: string, y: string, left: char -> bool, right: char -> bool)
    requires forall c :: !(left(c) && right(c))
    requires |x| >= 2 && left(x[0]) && right(x[1])
    ensures SpaceBetween(x + y, left, right)
            == SpaceBetween(x, left, right) + (Junction(x, y, left, right) + SpaceBetween(y, left, right))
    decreases |x|, 0
  {
    var s := x + y;
    var x' := x[2..];
    assert s[0] == x[0] && s[1] == x[1] && s[2..] == x' + y;
    SpaceBetweenMatch(s, left, right);
    SpaceBetweenMatch(x, left, right);
    SpaceBetweenAppend(x', y, left, right);
    JunctionAfterMatch(x, y, left, right);
    Regroup([x[0], ' ', x[1]], SpaceBetween(x', left, right),
            Junction(x, y, left, right) + SpaceBetween(y, left, right));
  }

  /** A match at the start of `x` does not change what happens where `x` meets `y`. */
  lemma {:induction false} JunctionAfterMatch(x: string, y: string, left: char -> bool, right: char -> bool)
    requires forall c :: !(left(c) && right(c))
    requires |x| >= 2 && right(x[1])
    ensures Junction(x[2..], y, left, right) == Junction(x, y, left, right)
  {
    if x[2..] != [] {
      assert x[2..][|x[2..]| - 1] == x[|x| - 1];
    } else {
      assert !left(x[1]);
    }
  }

  lemma {:induction false} Regroup(p: string, a: string, b: string)
    ensures p + (a + b) == (p + a) + b
  {}

  /** `SpaceBetweenAppend` when no match starts `x`. */
  lemma {:induction false} SpaceBetweenAppendSkip(x: string, y: string, left: char -> bool, right: char -> bool)
    requires forall c :: !(left(c) && right(c))
    requires |x| >= 2 && !(left(x[0]) && right(x[1]))
    ensures SpaceBetween(x + y, left, right)
            == SpaceBetween(x, left, right) + (Junction(x, y, left, right) + SpaceBetween(y, left, right))
    decreases |x|, 0
  {
    var s := x + y;
    var x' := x[1..];
    assert s[0] == x[0] && s[1] == x[1] && s[1..] == x' + y;
    SpaceBetweenSkip(s, left, right);
    SpaceBetweenSkip(x, left, right);
    SpaceBetweenAppend(x', y, left, right);
    assert x'[|x'| - 1] == x[|x| - 1];
    assert Junction(x', y, left, right) == Junction(x, y, left, right);
    Regroup([x[0]], SpaceBetween(x', left, right), Junction(x, y, left, right) + SpaceBetween(y, left, right));
  }

  /** The one-character case of `SpaceBetweenAppend`. */
  lemma {:induction false} SpaceBetweenAppendChar(x: string, y: string, left: char -> bool, right: char -> bool)
    requires forall c :: !(left(c) && right(c))
    requires |x| == 1
    ensures SpaceBetween(x + y, left, right)
            == SpaceBetween(x, left, right) + (Junction(x, y, left, right) + SpaceBetween(y, left, right))
  {
    var s := x + y;
    if y == [] {
      assert s == x;
    } else {
      assert s[0] == x[0] && s[1] == y[0];
      if left(x[0]) && right(y[0]) {
        assert s[2..] == y[1..];
        SpaceBetweenMatch(s, left, right);
        assert !left(y[0]);
        if |y| >= 2 {
          SpaceBetweenSkip(y, left, right);
        } else {
          assert y == [y[0]] && y[1..] == [];
        }
      } else {
        assert s[1..] == y;
        SpaceBetweenSkip(s, left, right);
      }
    }
  }

  /** The replacement at a match: both characters with a space between them. */
  lemma {:induction false} SpaceBetweenMatch(s: string, left: char -> bool, right: char -> bool)
    requires |s| >= 2 && left(s[0]) && right(s[1])
    ensures SpaceBetween(s, left, right) == [s[0], ' ', s[1]] + SpaceBetween(s[2..], left, right)
  {}

  /** The replacement where no match starts: the character stays. */
  lemma {:induction false} SpaceBetweenSkip(s: string, left: char -> bool, right: char -> bool)
    requires |s| >= 2 && !(left(s[0]) && right(s[1]))
    ensures SpaceBetween(s, left, right) == [s[0]] + SpaceBetween(s[1..], left, right)
  {}

  /** The replacement only inserts white space: the other characters stay, in order. */
  lemma {:induction false} SpaceBetweenKeepsText(s: string, left: char -> bool, right: char -> bool)
    ensures RemoveSpaces(SpaceBetween(s, left, right)) == RemoveSpaces(s)
    decreases |s|
  {
    if |s| >= 2 {
      if left(s[0]) && right(s[1]) {
        var rest := SpaceBetween(s[2..], left, right);
        SpaceBetweenKeepsText(s[2..], left, right);
        RemoveSpacesAppend([s[0], ' ', s[1]], rest);
        RemoveSpacesAppend([s[0], s[1]], s[2..]);
        assert s == [s[0], s[1]] + s[2..];
        assert RemoveSpaces([s[0], ' ', s[1]]) == RemoveSpaces([s[0], s[1]]) by {
          assert [s[0], ' ', s[1]][1..] == [' ', s[1]];
          assert [' ', s[1]][1..] == [s[1]];
          assert [s[0], s[1]][1..] == [s[1]];
        }
      } else {
        SpaceBetweenKeepsText(s[1..], left, right);
        RemoveSpacesAppend([s[0]], SpaceBetween(s[1..], left, right));
        RemoveSpacesAppend([s[0]], s[1..]);
        assert s == [s[0]] + s[1..];
      }
    }
  }

  /** After the replacement no `left` character is followed by a `right` character,
      provided the classes are disjoint and neither contains the space. */
  lemma {:induction false} SpaceBetweenSeparates(s: string, left: char -> bool, right: char -> bool)
    requires forall c :: !(left(c) && right(c))
    requires !left(' ') && !right(' ')
    ensures NoAdjacent(SpaceBetween(s, left, right), left, right)
    decreases |s|
  {
    if |s| >= 2 {
      if left(s[0]) && right(s[1]) {
        SpaceBetweenSeparates(s[2..], left, right);
        var rest := SpaceBetween(s[2..], left, right);
        var r := [s[0], ' ', s[1]] + rest;
        assert r == SpaceBetween(s, left, right);
        assert !left(s[1]);
        forall i | 0 <= i < |r| - 1
          ensures !(left(r[i]) && right(r[i + 1]))
        {
          if i >= 3 {
            assert r[i] == rest[i - 3] && r[i + 1] == rest[i - 2];
          }
        }
      } else {
        SpaceBetweenSeparates(s[1..], left, right);
        var rest := SpaceBetween(s[1..], left, right);
        var r := [s[0]] + rest;
        forall i | 0 <= i < |r| - 1
          ensures !(left(r[i]) && right(r[i + 1]))
        {
          if i >= 1 {
            assert r[i] == rest[i - 1] && r[i + 1] == rest[i];
          }
        }
      }
    }
  }

  /** Inserting spaces creates no new adjacency of two classes that exclude the space:
      the second replacement keeps what the first achieved. */
  lemma {:induction false} SpaceBetweenKeepsNoAdjacent(s: string, left: char -> bool, right: char -> bool,
                                                       p: char -> bool, q: char -> bool)
    requires !p(' ') && !q(' ')
    requires NoAdjacent(s, p, q)
    ensures NoAdjacent(SpaceBetween(s, left, right), p, q)
    decreases |s|
  {
    if |s| >= 2 {
      if left(s[0]) && right(s[1]) {
        SpaceBetweenKeepsNoAdjacent(s[2..], left, right, p, q);
        var rest := SpaceBetween(s[2..], left, right);
        var r := [s[0], ' ', s[1]] + rest;
        forall i | 0 <= i < |r| - 1
          ensures !(p(r[i]) && q(r[i + 1]))
        {
          if i == 2 {
            assert r[i] == s[1] && r[i + 1] == s[2];
          } else if i >= 3 {
            assert r[i] == rest[i - 3] && r[i + 1] == rest[i - 2];
          }
        }
      } else {
        SpaceBetweenKeepsNoAdjacent(s[1..], left, right, p, q);
        var rest := SpaceBetween(s[1..], left, right);
        var r := [s[0]] + rest;
        forall i | 0 <= i < |r| - 1
          ensures !(p(r[i]) && q(r[i + 1]))
        {
          if i == 0 {
            assert r[0] == s[0] && r[1] == s[1];
          } else {
            assert r[i] == rest[i - 1] && r[i + 1] == rest[i];
          }
        }
      }
    }
  }

  /** With no adjacent pair to break, the replacement changes nothing. */
  lemma {:induction false} SpaceBetweenUnchanged(s: string, left: char -> bool, right: char -> bool)
    requires NoAdjacent(s, left, right)
    ensures SpaceBetween(s, left, right) == s
    decreases |s|
  {
    if |s| >= 2 {
      assert !(left(s[0]) && right(s[1]));
      SpaceBetweenUnchanged(s[1..], left, right);
      assert s == [s[0]] + s[1..];
    }
  }

  /** `s.split(/\s+/)`: the pieces between maximal runs of white space; white space at
      either end gives an empty first or last piece. */
  function SplitWhitespace(s: string): (parts: seq<string>)
    ensures |parts| >= 1
    ensures forall k :: 0 <= k < |parts| ==> NoSpace(parts[k])
    ensures |parts[0]| <= |s| && parts[0] == s[..|parts[0]|]
    decreases |s|
  {
    if s == [] then [""]
    else if IsSpace(s[0]) then
      var t := TrimStart(s);
      [""] + SplitWhitespace(t)
    else
      var r := SplitWhitespace(s[1..]);
      [[s[0]] + r[0]] + r[1..]
  }

  /** The pieces hold exactly the non-space characters of the string, in order. */
  lemma {:induction false} ConcatSplitWhitespace(s: string)
    ensures Concat(SplitWhitespace(s)) == RemoveSpaces(s)
    decreases |s|
  {
    if s != [] {
      var parts := SplitWhitespace(s);
      if IsSpace(s[0]) {
        var t := TrimStart(s);
        ConcatSplitWhitespace(t);
        RemoveSpacesTrimStart(s);
        assert parts[1..] == SplitWhitespace(t);
      } else {
        var r := SplitWhitespace(s[1..]);
        ConcatSplitWhitespace(s[1..]);
        assert parts[1..] == r[1..];
        assert Concat(parts) == [s[0]] + r[0] + Concat(r[1..]);
        assert Concat(r) == r[0] + Concat(r[1..]);
      }
    }
  }

  lemma {:induction false} NoAdjacentSlice(s: string, i: nat, j: nat, p: char -> bool, q: char -> bool)
    requires i <= j <= |s|
    requires NoAdjacent(s, p, q)
    ensures NoAdjacent(s[i..j], p, q)
  {
    var t := s[i..j];
    forall k | 0 <= k < |t| - 1
      ensures !(p(t[k]) && q(t[k + 1]))
    {
      assert t[k] == s[i + k] && t[k + 1] == s[i + k + 1];
    }
  }

  /** Every piece of a string without an adjacent pair has none either. */
  lemma {:induction false} SplitKeepsNoAdjacent(s: string, p: char -> bool, q: char -> bool)
    requires NoAdjacent(s, p, q)
    ensures forall k :: 0 <= k < |SplitWhitespace(s)| ==> NoAdjacent(SplitWhitespace(s)[k], p, q)
    decreases |s|
  {
    if s != [] {
      var parts := SplitWhitespace(s);
      if IsSpace(s[0]) {
        SplitAfterSpace(s, p, q);
      } else {
        var r := SplitWhitespace(s[1..]);
        NoAdjacentSlice(s, 1, |s|, p, q);
        SplitKeepsNoAdjacent(s[1..], p, q);
        assert parts == [[s[0]] + r[0]] + r[1..];
        NoAdjacentSlice(s, 0, |parts[0]|, p, q);
        forall k | 1 <= k < |parts|
          ensures NoAdjacent(parts[k], p, q)
        {
          assert parts[k] == r[k];
        }
      }
    }
  }

  /** The space-first case of `SplitKeepsNoAdjacent`: the pieces are an empty one and
      those of the text after the leading white space. */
  lemma {:induction false} SplitAfterSpace(s: string, p: char -> bool, q: char -> bool)
    requires s != [] && IsSpace(s[0])
    requires NoAdjacent(s, p, q)
    ensures forall k :: 0 <= k < |SplitWhitespace(s)| ==> NoAdjacent(SplitWhitespace(s)[k], p, q)
    decreases |s|, 0
  {
    var t := TrimStart(s);
    var parts := SplitWhitespace(s);
    assert parts == [""] + SplitWhitespace(t);
    NoAdjacentSlice(s, |s| - |t|, |s|, p, q);
    assert s[|s| - |t|..|s|] == t;
    SplitKeepsNoAdjacent(t, p, q);
    forall k | 0 <= k < |parts|
      ensures NoAdjacent(parts[k], p, q)
    {
      if k > 0 {
        assert parts[k] == SplitWhitespace(t)[k - 1];
      }
    }
  }

  /** `map((w) => w.trim())`. */
  function TrimAll(parts: seq<string>): (r: seq<string>)
    ensures |r| == |parts|
  {
    seq(|parts|, k requires 0 <= k < |parts| => Trim(parts[k]))
  }

  /** Pieces holding no white space are left as they are by `trim`. */
  lemma {:induction false} TrimAllOfSpaceless(parts: seq<string>)
    requires forall k :: 0 <= k < |parts| ==> NoSpace(parts[k])
    ensures TrimAll(parts) == parts
  {
    forall k | 0 <= k < |parts|
      ensures TrimAll(parts)[k] == parts[k]
    {
      TrimOfTrimmed(parts[k]);
    }
  }

  /** `filter((w) => w)`: the non-empty pieces, in order. */
  function NonEmpty(parts: seq<string>): (r: seq<string>)
    ensures forall k :: 0 <= k < |r| ==> r[k] != ""
    ensures forall w :: w in r <==> w in parts && w != ""
    decreases |parts|
  {
    if parts == [] then []
    else (if parts[0] == "" then [] else [parts[0]]) + NonEmpty(parts[1..])
  }

  /** The filter works piece by piece: filtering a concatenation concatenates the
      filtered parts, so the kept pieces stay in their order and keep their repetitions. */
  lemma {:induction false} NonEmptyAppend(a: seq<string>, b: seq<string>)
    ensures NonEmpty(a + b) == NonEmpty(a) + NonEmpty(b)
    decreases |a|
  {
    if a == [] {
      assert a + b == b;
    } else {
      assert (a + b)[0] == a[0] && (a + b)[1..] == a[1..] + b;
      NonEmptyAppend(a[1..], b);
    }
  }

  /** One piece is kept exactly when it is not empty. */
  lemma {:induction false} NonEmptyOne(w: string)
    ensures NonEmpty([w]) == if w == "" then [] else [w]
  {
    assert [w][1..] == [];
  }

  lemma {:induction false} ConcatNonEmpty(parts: seq<string>)
    ensures Concat(NonEmpty(parts)) == Concat(parts)
    decreases |parts|
  {
    if parts != [] {
      ConcatNonEmpty(parts[1..]);
      ConcatAppend(if parts[0] == "" then [] else [parts[0]], NonEmpty(parts[1..]));
    }
  }

  lemma {:induction false} ConcatAppend(a: seq<string>, b: seq<string>)
    ensures Concat(a + b) == Concat(a) + Concat(b)
    decreases |a|
  {
    if a == [] {
      assert a + b == b;
    } else {
      assert (a + b)[0] == a[0] && (a + b)[1..] == a[1..] + b;
      ConcatAppend(a[1..], b);
    }
  }

  lemma {:induction false} NonEmptyOfNonEmpty(parts: seq<string>)
    requires forall k :: 0 <= k < |parts| ==> parts[k] != ""
    ensures NonEmpty(parts) == parts
    decreases |parts|
  {
    if parts != [] {
      NonEmptyOfNonEmpty(parts[1..]);
      assert parts == [parts[0]] + parts[1..];
    }
  }

  /** What a token of the order text looks like: non-empty, no white space, and no
      digit next to a letter on either side. */
  predicate IsToken(w: string) {
    w != "" && NoSpace(w) && NoAdjacent(w, IsDigit, IsLetter) && NoAdjacent(w, IsLetter, IsDigit)
  }

  /** The text after both `replace` calls. */
  function Spaced(text: string): string {
    SpaceBetween(SpaceBetween(text, IsDigit, IsLetter), IsLetter, IsDigit)
  }

  /** The `words` of the order text. */
  function Tokenize(text: string): (ws: seq<string>)
    ensures forall k :: 0 <= k < |ws| ==> ws[k] != ""
  {
    NonEmpty(TrimAll(SplitWhitespace(Spaced(text))))
  }

  lemma {:induction false} DigitsAreNotLetters()
    ensures forall c :: !(IsDigit(c) && IsLetter(c))
    ensures !IsDigit(' ') && !IsLetter(' ')
    ensures forall c :: IsSpace(c) ==> !IsDigit(c) && !IsLetter(c)
  {}

  /** After both replacements no digit touches a letter. */
  lemma {:induction false} SpacedSeparates(text: string)
    ensures NoAdjacent(Spaced(text), IsDigit, IsLetter)
    ensures NoAdjacent(Spaced(text), IsLetter, IsDigit)
  {
    var once := SpaceBetween(text, IsDigit, IsLetter);
    DigitsAreNotLetters();
    SpaceBetweenSeparates(text, IsDigit, IsLetter);
    SpaceBetweenKeepsNoAdjacent(once, IsLetter, IsDigit, IsDigit, IsLetter);
    SpaceBetweenSeparates(once, IsLetter, IsDigit);
  }

  /** Every token is non-empty, holds no white space and has no digit next to a letter. */
  lemma {:induction false} TokensAreTokens(text: string)
    ensures forall k :: 0 <= k < |Tokenize(text)| ==> IsToken(Tokenize(text)[k])
  {
    var spaced := Spaced(text);
    var parts := SplitWhitespace(spaced);
    SpacedSeparates(text);
    SplitKeepsNoAdjacent(spaced, IsDigit, IsLetter);
    SplitKeepsNoAdjacent(spaced, IsLetter, IsDigit);
    TrimAllOfSpaceless(parts);
    var words := NonEmpty(parts);
    assert words == Tokenize(text);
    forall k | 0 <= k < |words|
      ensures IsToken(words[k])
    {
      assert words[k] in parts;
    }
  }

  /** Together the tokens hold exactly the non-space characters of the text, in order. */
  lemma {:induction false} TokensKeepText(text: string)
    ensures Concat(Tokenize(text)) == RemoveSpaces(text)
  {
    var once := SpaceBetween(text, IsDigit, IsLetter);
    var parts := SplitWhitespace(Spaced(text));
    TrimAllOfSpaceless(parts);
    ConcatNonEmpty(parts);
    ConcatSplitWhitespace(Spaced(text));
    SpaceBetweenKeepsText(once, IsLetter, IsDigit);
    SpaceBetweenKeepsText(text, IsDigit, IsLetter);
  }

  lemma {:induction false} NoAdjacentAppend(a: string, b: string, p: char -> bool, q: char -> bool)
    requires NoAdjacent(a, p, q) && NoAdjacent(b, p, q)
    requires a == [] || b == [] || !(p(a[|a| - 1]) && q(b[0]))
    ensures NoAdjacent(a + b, p, q)
  {
    var s := a + b;
    forall i | 0 <= i < |s| - 1
      ensures !(p(s[i]) && q(s[i + 1]))
    {
      if i + 1 < |a| {
        assert s[i] == a[i] && s[i + 1] == a[i + 1];
      } else if i + 1 == |a| {
        assert s[i] == a[|a| - 1] && s[i + 1] == b[0];
      } else {
        assert s[i] == b[i - |a|] && s[i + 1] == b[i + 1 - |a|];
      }
    }
  }

  /** Tokens joined with single spaces keep every token's separation. */
  lemma {:induction false} JoinNoAdjacent(ws: seq<string>, p: char -> bool, q: char -> bool)
    requires !p(' ') && !q(' ')
    requires forall k :: 0 <= k < |ws| ==> NoAdjacent(ws[k], p, q)
    ensures NoAdjacent(Join(ws, " "), p, q)
    decreases |ws|
  {
    if |ws| > 1 {
      JoinNoAdjacent(ws[1..], p, q);
      NoAdjacentAppend(ws[0], " ", p, q);
      NoAdjacentAppend(ws[0] + " ", Join(ws[1..], " "), p, q);
    }
  }

  /** A spaceless string is one piece. */
  lemma {:induction false} SplitSpaceless(w: string)
    requires NoSpace(w)
    ensures SplitWhitespace(w) == [w]
    decreases |w|
  {
    if w != [] {
      SplitSpaceless(w[1..]);
      assert [w[0]] + w[1..] == w;
    }
  }

  /** A spaceless prefix joins the first piece of what follows it. */
  lemma {:induction false} SplitAfterSpaceless(w: string, x: string)
    requires NoSpace(w)
    ensures SplitWhitespace(w + x) == [w + SplitWhitespace(x)[0]] + SplitWhitespace(x)[1..]
    decreases |w|
  {
    var r := SplitWhitespace(x);
    if w == [] {
      assert w + x == x;
      assert w + r[0] == r[0];
      assert [r[0]] + r[1..] == r;
    } else {
      var s := w + x;
      assert s[0] == w[0] && s[1..] == w[1..] + x;
      SplitNonSpace(s);
      SplitAfterSpaceless(w[1..], x);
      Regroup([w[0]], w[1..], r[0]);
      assert [w[0]] + w[1..] == w;
    }
  }

  /** A character other than white space opens the first piece. */
  lemma {:induction false} SplitNonSpace(s: string)
    requires s != [] && !IsSpace(s[0])
    ensures SplitWhitespace(s) == [[s[0]] + SplitWhitespace(s[1..])[0]] + SplitWhitespace(s[1..])[1..]
  {}

  /** Splitting the space-joined tokens gives the tokens back. */
  lemma {:induction false} SplitJoin(ws: seq<string>)
    requires |ws| >= 1
    requires forall k :: 0 <= k < |ws| ==> ws[k] != "" && NoSpace(ws[k])
    ensures SplitWhitespace(Join(ws, " ")) == ws
  {
    var spaces := seq(|ws| - 1, _ => " ");
    JoinIsGlue(ws);
    assert forall k :: 0 <= k < |spaces| ==> spaces[k] != [] && AllSpace(spaces[k]);
    SplitGlue(ws, spaces);
  }

  /** Joining with single spaces glues with one-space separators. */
  lemma {:induction false} JoinIsGlue(ws: seq<string>)
    requires |ws| >= 1
    ensures Join(ws, " ") == Glue(ws, seq(|ws| - 1, _ => " "))
    decreases |ws|
  {
    if |ws| > 1 {
      var rest := ws[1..];
      var spaces := seq(|ws| - 1, _ => " ");
      JoinIsGlue(rest);
      assert spaces[0] == " " && spaces[1..] == seq(|rest| - 1, _ => " ");
      Regroup(ws[0], " ", Join(rest, " "));
    }
  }

  /** The replacements leave space-joined tokens as they are. */
  lemma {:induction false} SpacedJoin(ws: seq<string>)
    requires forall k :: 0 <= k < |ws| ==> IsToken(ws[k])
    ensures Spaced(Join(ws, " ")) == Join(ws, " ")
  {
    var text := Join(ws, " ");
    DigitsAreNotLetters();
    JoinNoAdjacent(ws, IsDigit, IsLetter);
    JoinNoAdjacent(ws, IsLetter, IsDigit);
    SpaceBetweenUnchanged(text, IsDigit, IsLetter);
    SpaceBetweenUnchanged(text, IsLetter, IsDigit);
  }

  /** The empty text has no tokens. */
  lemma {:induction false} TokenizeEmpty()
    ensures Tokenize("") == []
  {
    assert Spaced("") == "";
    assert SplitWhitespace("") == [""];
    assert Trim("") == "";
    assert TrimAll([""]) == [""];
    assert NonEmpty([""]) == [];
  }

  /** Tokenising the tokens joined with single spaces gives the same tokens. */
  lemma {:induction false} TokenizeJoin(ws: seq<string>)
    requires forall k :: 0 <= k < |ws| ==> IsToken(ws[k])
    ensures Tokenize(Join(ws, " ")) == ws
  {
    var text := Join(ws, " ");
    SpacedJoin(ws);
    if ws == [] {
      assert text == "";
      TokenizeEmpty();
    } else {
      assert forall k :: 0 <= k < |ws| ==> ws[k] != "" && NoSpace(ws[k]);
      SplitJoin(ws);
      TrimAllOfSpaceless(ws);
      NonEmptyOfNonEmpty(ws);
      assert Tokenize(text) == NonEmpty(TrimAll(SplitWhitespace(text)));
    }
  }

  /** Tokenisation is idempotent on its own output rejoined with single spaces. */
  lemma {:induction false} TokenizeIdempotent(text: string)
    ensures Tokenize(Join(Tokenize(text), " ")) == Tokenize(text)
  {
    TokensAreTokens(text);
    TokenizeJoin(Tokenize(text));
  }

  /** The tokens `ws` written one after another, with `seps[k]` between `ws[k]` and
      `ws[k + 1]`. */
  function Glue(ws: seq<string>, seps: seq<string>): string
    requires |ws| == |seps| + 1
    decreases |seps|
  {
    if seps == [] then ws[0] else ws[0] + (seps[0] + Glue(ws[1..], seps[1..]))
  }

  lemma {:induction false} GlueStarts(ws: seq<string>, seps: seq<string>)
    requires |ws| == |seps| + 1 && ws[0] != []
    ensures Glue(ws, seps) != [] && Glue(ws, seps)[0] == ws[0][0]
  {}

  /** A digit and a letter, in either order, meet where `a` ends and `b` begins. */
  predicate DigitLetterJunction(a: string, b: string) {
    a != [] && b != []
    && ((IsDigit(a[|a| - 1]) && IsLetter(b[0])) || (IsLetter(a[|a| - 1]) && IsDigit(b[0])))
  }

  /** What may stand between two tokens in the text: a run of white space, or nothing
      at all where a digit meets a letter. */
  predicate Separates(a: string, sep: string, b: string) {
    (sep != [] && AllSpace(sep)) || (sep == [] && DigitLetterJunction(a, b))
  }

  /** The separators after one replacement pass: an empty one at a `left`-`right`
      junction becomes a space, the others stay. */
  function Widened(ws: seq<string>, seps: seq<string>, left: char -> bool, right: char -> bool): (r: seq<string>)
    requires |ws| == |seps| + 1
    ensures |r| == |seps|
  {
    seq(|seps|, k requires 0 <= k < |seps| =>
      if seps[k] == [] then Junction(ws[k], ws[k + 1], left, right) else seps[k])
  }

  /** One replacement pass over glued tokens without a match inside them adds a space
      exactly at the empty separators that sit at a `left`-`right` junction. */
  lemma {:induction false} SpaceBetweenGlue(ws: seq<string>, seps: seq<string>, left: char -> bool, right: char -> bool)
    requires forall c :: !(left(c) && right(c))
    requires forall c :: IsSpace(c) ==> !left(c) && !right(c)
    requires |ws| == |seps| + 1
    requires forall k :: 0 <= k < |ws| ==> ws[k] != [] && NoAdjacent(ws[k], left, right)
    requires forall k :: 0 <= k < |seps| ==> AllSpace(seps[k])
    ensures SpaceBetween(Glue(ws, seps), left, right) == Glue(ws, Widened(ws, seps, left, right))
    decreases |seps|
  {
    SpaceBetweenUnchanged(ws[0], left, right);
    if seps != [] {
      var g := Glue(ws[1..], seps[1..]);
      var w := Widened(ws, seps, left, right);
      SpaceBetweenGlue(ws[1..], seps[1..], left, right);
      assert Widened(ws[1..], seps[1..], left, right) == w[1..];
      GlueStarts(ws[1..], seps[1..]);
      SpaceBetweenGlueSeparator(ws[0], seps[0], g, ws[1], left, right);
      assert w[0] == if seps[0] == [] then Junction(ws[0], ws[1], left, right) else seps[0];
    }
  }

  /** The step of `SpaceBetweenGlue` at one separator. */
  lemma {:induction false} SpaceBetweenGlueSeparator(a: string, sep: string, g: string, b: string,
                                                     left: char -> bool, right: char -> bool)
    requires forall c :: !(left(c) && right(c))
    requires forall c :: IsSpace(c) ==> !left(c) && !right(c)
    requires a != [] && SpaceBetween(a, left, right) == a
    requires AllSpace(sep)
    requires g != [] && b != [] && g[0] == b[0]
    ensures SpaceBetween(a + (sep + g), left, right)
            == a + ((if sep == [] then Junction(a, b, left, right) else sep) + SpaceBetween(g, left, right))
  {
    if sep == [] {
      assert sep + g == g;
      SpaceBetweenGlueNothing(a, g, b, left, right);
    } else {
      SpaceBetweenGlueRun(a, sep, g, left, right);
    }
  }

  /** `SpaceBetweenGlueSeparator` for an empty separator. */
  lemma {:induction false} SpaceBetweenGlueNothing(a: string, g: string, b: string,
                                                   left: char -> bool, right: char -> bool)
    requires forall c :: !(left(c) && right(c))
    requires SpaceBetween(a, left, right) == a
    requires g != [] && b != [] && g[0] == b[0]
    ensures SpaceBetween(a + g, left, right) == a + (Junction(a, b, left, right) + SpaceBetween(g, left, right))
  {
    SpaceBetweenAppend(a, g, left, right);
    assert Junction(a, g, left, right) == Junction(a, b, left, right);
  }

  /** `SpaceBetweenGlueSeparator` for a run of white space. */
  lemma {:induction false} SpaceBetweenGlueRun(a: string, sep: string, g: string,
                                               left: char -> bool, right: char -> bool)
    requires forall c :: !(left(c) && right(c))
    requires forall c :: IsSpace(c) ==> !left(c) && !right(c)
    requires SpaceBetween(a, left, right) == a
    requires sep != [] && AllSpace(sep)
    ensures SpaceBetween(a + (sep + g), left, right) == a + (sep + SpaceBetween(g, left, right))
  {
    SpaceBetweenSpaceRun(sep, g, left, right);
    var t := sep + g;
    assert t[0] == sep[0];
    SpaceBetweenAppend(a, t, left, right);
    assert Junction(a, t, left, right) == "";
    assert "" + SpaceBetween(t, left, right) == SpaceBetween(t, left, right);
  }

  /** A run of white space is left alone and starts no match with what follows it. */
  lemma {:induction false} SpaceBetweenSpaceRun(sep: string, g: string, left: char -> bool, right: char -> bool)
    requires forall c :: !(left(c) && right(c))
    requires forall c :: IsSpace(c) ==> !left(c) && !right(c)
    requires sep != [] && AllSpace(sep)
    ensures SpaceBetween(sep + g, left, right) == sep + SpaceBetween(g, left, right)
  {
    assert NoAdjacent(sep, left, right);
    SpaceBetweenUnchanged(sep, left, right);
    SpaceBetweenAppend(sep, g, left, right);
    assert Junction(sep, g, left, right) == "";
  }

  /** Leading white space gives an empty first piece. */
  lemma {:induction false} SplitLeadingSpace(t: string)
    requires t != [] && IsSpace(t[0])
    ensures SplitWhitespace(t) == [""] + SplitWhitespace(TrimStart(t))
  {}

  /** Tokens glued with non-empty runs of white space split back into the tokens. */
  lemma {:induction false} SplitGlue(ws: seq<string>, seps: seq<string>)
    requires |ws| == |seps| + 1
    requires forall k :: 0 <= k < |ws| ==> ws[k] != [] && NoSpace(ws[k])
    requires forall k :: 0 <= k < |seps| ==> seps[k] != [] && AllSpace(seps[k])
    ensures SplitWhitespace(Glue(ws, seps)) == ws
    decreases |seps|
  {
    if seps == [] {
      SplitSpaceless(ws[0]);
    } else {
      var rest := ws[1..];
      var g := Glue(rest, seps[1..]);
      SplitGlue(rest, seps[1..]);
      GlueStarts(rest, seps[1..]);
      SplitSpaceRun(seps[0], g, rest);
      SplitSpacelessThen(ws[0], seps[0] + g, rest);
      assert [ws[0]] + rest == ws;
    }
  }

  /** A run of white space before a text that starts with a token adds an empty piece. */
  lemma {:induction false} SplitSpaceRun(sp: string, g: string, rest: seq<string>)
    requires sp != [] && AllSpace(sp)
    requires g != [] && !IsSpace(g[0])
    requires SplitWhitespace(g) == rest
    ensures SplitWhitespace(sp + g) == [""] + rest
  {
    TrimStartSpaces(sp, g);
    assert (sp + g)[0] == sp[0];
    SplitLeadingSpace(sp + g);
  }

  /** A spaceless word before an empty piece takes its place. */
  lemma {:induction false} SplitSpacelessThen(w: string, t: string, rest: seq<string>)
    requires NoSpace(w)
    requires SplitWhitespace(t) == [""] + rest
    ensures SplitWhitespace(w + t) == [w] + rest
  {
    SplitAfterSpaceless(w, t);
    assert ([""] + rest)[0] == "" && ([""] + rest)[1..] == rest;
    assert w + "" == w;
  }

  /** The text is cut exactly at white space and where a digit meets a letter: tokens
      written one after another, each pair separated by a run of white space or, where a
      digit meets a letter, by nothing, tokenise back to the same tokens. */
  lemma {:induction false} TokenizeGlue(ws: seq<string>, seps: seq<string>)
    requires |ws| == |seps| + 1
    requires forall k :: 0 <= k < |ws| ==> IsToken(ws[k])
    requires forall k :: 0 <= k < |seps| ==> Separates(ws[k], seps[k], ws[k + 1])
    ensures Tokenize(Glue(ws, seps)) == ws
  {
    DigitsAreNotLetters();
    var w1 := Widened(ws, seps, IsDigit, IsLetter);
    var w2 := Widened(ws, w1, IsLetter, IsDigit);
    forall k | 0 <= k < |seps|
      ensures AllSpace(seps[k])
    {
      assert Separates(ws[k], seps[k], ws[k + 1]);
    }
    SpaceBetweenGlue(ws, seps, IsDigit, IsLetter);
    forall k | 0 <= k < |seps|
      ensures AllSpace(w1[k])
      ensures w2[k] != [] && AllSpace(w2[k])
    {
      if seps[k] == [] {
        var a, b := ws[k], ws[k + 1];
        if IsDigit(a[|a| - 1]) && IsLetter(b[0]) {
          assert w1[k] == " " && w2[k] == " ";
        } else {
          assert !IsDigit(a[|a| - 1]);
          assert w1[k] == "";
          assert w2[k] == " ";
        }
      }
    }
    SpaceBetweenGlue(ws, w1, IsLetter, IsDigit);
    assert Spaced(Glue(ws, seps)) == Glue(ws, w2);
    SplitGlue(ws, w2);
    TrimAllOfSpaceless(ws);
    NonEmptyOfNonEmpty(ws);
  }

  /** A word of letters only is a token. */
  lemma {:induction false} LettersAreToken(w: string)
    requires w != [] && forall i :: 0 <= i < |w| ==> IsLetter(w[i])
    ensures IsToken(w)
  {
    DigitsAreNotLetters();
  }

  /** A word of digits only is a token. */
  lemma {:induction false} DigitsAreToken(w: string)
    requires w != [] && forall i :: 0 <= i < |w| ==> IsDigit(w[i])
    ensures IsToken(w)
  {
    DigitsAreNotLetters();
  }

  /** A number written directly before a word is cut from it: digits followed by
      letters are two tokens. */
  lemma {:induction false} TokenizeNumberThenWord(number: string, word: string)
    requires number != [] && forall i :: 0 <= i < |number| ==> IsDigit(number[i])
    requires word != [] && forall i :: 0 <= i < |word| ==> IsLetter(word[i])
    ensures Tokenize(number + word) == [number, word]
  {
    var ws := [number, word];
    DigitsAreToken(number);
    LettersAreToken(word);
    assert forall k :: 0 <= k < |ws| ==> IsToken(ws[k]);
    assert DigitLetterJunction(number, word) by {
      assert IsDigit(number[|number| - 1]) && IsLetter(word[0]);
    }
    assert ws[1..] == [word];
    assert Glue(ws[1..], []) == word;
    assert "" + word == word;
    assert Glue(ws, [""]) == number + word;
    TokenizeGlue(ws, [""]);
  }

  /** `2буррата` is read as the quantity `2` followed by the cheese `буррата`. */
  lemma {:induction false} TokenizeQuantityGluedToName(number: string, word: string)
    requires number == "2" && word == "буррата"
    ensures Tokenize(number + word) == ["2", "буррата"]
  {
    assert forall i :: 0 <= i < |word| ==> IsLetter(word[i]);
    TokenizeNumberThenWord(number, word);
  }
}
