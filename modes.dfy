/** Classification of an order by its leading keyword, and the stripping of that
    keyword (cloudflare-worker/index.js:13-19). */
module Modes {
  import opened Chars

  datatype Mode = New | Add | Update

  const UpdateKeyword := "обновить"
  const ChangeKeyword := "изменить"
  const AddKeyword := "добавить"

  predicate StartsWith(s: string, prefix: string) {
    |prefix| <= |s| && s[..|prefix|] == prefix
  }

  /** The mode chosen from the lower-cased text by `startsWith`. */
  function ModeOf(lowered: string): (m: Mode)
    ensures m == New <==> !StartsWith(lowered, UpdateKeyword) && !StartsWith(lowered, ChangeKeyword)
                          && !StartsWith(lowered, AddKeyword)
    ensures m == Update ==> StartsWith(lowered, UpdateKeyword) || StartsWith(lowered, ChangeKeyword)
    ensures m == Add ==> StartsWith(lowered, AddKeyword)
  {
    if StartsWith(lowered, UpdateKeyword) || StartsWith(lowered, ChangeKeyword) then Update
    else if StartsWith(lowered, AddKeyword) then Add
    else New
  }

  /** The regular expression `^(keyword)` under the `i` flag matches at the start of `s`. */
  predicate StartsWithIgnoringCase(s: string, keyword: string) {
    |keyword| <= |s| && LowerStr(s[..|keyword|]) == keyword
  }

  /** `replace(/^(обновить|изменить|добавить)/i, "")`: the first alternative that
      matches at the very start is removed; otherwise the text is unchanged. */
  function StripKeyword(s: string): (r: string)
    ensures |r| <= |s| && r == s[|s| - |r|..]
  {
    if StartsWithIgnoringCase(s, UpdateKeyword) then s[|UpdateKeyword|..]
    else if StartsWithIgnoringCase(s, ChangeKeyword) then s[|ChangeKeyword|..]
    else if StartsWithIgnoringCase(s, AddKeyword) then s[|AddKeyword|..]
    else s
  }

  /** The keyword of a mode: which prefixes select it. */
  predicate KeywordOf(m: Mode, keyword: string) {
    match m
    case Update => keyword == UpdateKeyword || keyword == ChangeKeyword
    case Add => keyword == AddKeyword
    case New => false
  }

  lemma {:induction false} StartsWithLowered(s: string, keyword: string)
    ensures StartsWith(LowerStr(s), keyword) <==> StartsWithIgnoringCase(s, keyword)
  {
    if |keyword| <= |s| {
      LowerStrPrefix(s, |keyword|);
    }
  }

  /** The mode and the stripping agree: the text is left alone exactly when the mode is
      `New`; otherwise exactly one keyword of that mode is cut from the very start. */
  lemma {:induction false} ModeAgreesWithStrip(s: string)
    ensures ModeOf(LowerStr(s)) == New <==> StripKeyword(s) == s
    ensures ModeOf(LowerStr(s)) != New ==>
      exists keyword :: KeywordOf(ModeOf(LowerStr(s)), keyword)
                        && StartsWithIgnoringCase(s, keyword) && StripKeyword(s) == s[|keyword|..]
  {
    StartsWithLowered(s, UpdateKeyword);
    StartsWithLowered(s, ChangeKeyword);
    StartsWithLowered(s, AddKeyword);
    var m := ModeOf(LowerStr(s));
    if m == Update {
      if StartsWithIgnoringCase(s, UpdateKeyword) {
        assert KeywordOf(m, UpdateKeyword);
      } else {
        assert KeywordOf(m, ChangeKeyword);
      }
    } else if m == Add {
      assert KeywordOf(m, AddKeyword);
    }
    if StripKeyword(s) != s {
      assert m != New;
    }
    if m != New {
      assert |StripKeyword(s)| < |s|;
    }
  }

  /** Stripping takes at most one keyword: what is left is a suffix of the text, shorter
      by the length of one keyword if it is shorter at all. */
  lemma {:induction false} StripKeywordShape(s: string)
    ensures StripKeyword(s) == s
            || (|s| >= 8 && StripKeyword(s) == s[8..]
                && LowerStr(s[..8]) in {UpdateKeyword, ChangeKeyword, AddKeyword})
  {}
}
