/**
 Turning an item label into an environment-variable name: the chain of replacements,
 against a direct description by the label's words.
 */
module EnvKey {
  import opened Text

  predicate IsUpperOrDigit(c: char) {
    'A' <= c <= 'Z' || '0' <= c <= '9'
  }

  /** Letters and digits. */
  predicate IsWordChar(c: char) {
    IsUpperOrDigit(Upper(c))
  }

  predicate IsDigit(c: char) {
    '0' <= c <= '9'
  }

  function UpperAll(s: string): (r: string)
    ensures |r| == |s|
  {
    if s == "" then "" else [Upper(s[0])] + UpperAll(s[1..])
  }

  // ---- the replacements -----------------------------------------------------------

  /** `replace(/[^A-Z0-9_]+/g, "_")`; `inRun`: the previous character was replaced. */
  function ReplaceJunk(s: string, inRun: bool): string {
    if s == "" then ""
    else if IsUpperOrDigit(s[0]) || s[0] == '_' then [s[0]] + ReplaceJunk(s[1..], false)
    else (if inRun then "" else "_") + ReplaceJunk(s[1..], true)
  }

  /** `replace(/_+/g, "_")`; `inRun`: the previous character was an underscore. */
  function Collapse(s: string, inRun: bool): string {
    if s == "" then ""
    else if s[0] != '_' then [s[0]] + Collapse(s[1..], false)
    else (if inRun then "" else "_") + Collapse(s[1..], true)
  }

  /** `replace(/^_+/, "_")`. */
  function CollapseLeading(s: string): string {
    if |s| > 1 && s[0] == '_' && s[1] == '_' then CollapseLeading(s[1..]) else s
  }

  /** `replace(/_+$/, "")`. */
  function StripTrailing(s: string): (r: string)
    ensures r <= s
    ensures r == "" || r[|r| - 1] != '_'
  {
    if s != "" && s[|s| - 1] == '_' then StripTrailing(s[..|s| - 1]) else s
  }

  /** `/^[A-Z_][A-Z0-9_]*$/`. */
  predicate LegalName(s: string) {
    s != "" && !IsDigit(s[0]) && forall i :: 0 <= i < |s| ==> IsUpperOrDigit(s[i]) || s[i] == '_'
  }

  /** The name of the label in upper case, whatever that is for characters beyond ASCII. */
  method LabelToEnvKey(casing: Casing, itemLabel: string) returns (r: string)
    requires UpperCases(casing)
    ensures r == EnvName(Cased(casing, itemLabel))
    ensures (forall i :: 0 <= i < |itemLabel| ==> itemLabel[i] as int < 128) ==> r == EnvName(itemLabel)
  {
    hide Tokens, Squash, Joined, Collapse, CollapseLeading, StripTrailing, ReplaceJunk, UpperAll, NoDouble, IsWord,
         LegalName, Cased;
    CasedIsUpper(casing, itemLabel);
    CasedAscii(casing, itemLabel);
    EnvNameUpper(itemLabel);
    ghost var upper := Cased(casing, itemLabel);
    if itemLabel == "" {
      NoWords();
      return "";
    }
    var normalized := ReplaceJunk(Cased(casing, itemLabel), false);
    normalized := Collapse(normalized, false);
    Collapsed(upper);
    if normalized[0] == '_' && |normalized| > 1 {
      normalized := CollapseLeading(normalized);
    }
    if normalized[|normalized| - 1] == '_' && |normalized| > 1 {
      normalized := StripTrailing(normalized);
    }
    if normalized == "_" {
      return "";
    }
    if |normalized| > 0 && IsDigit(normalized[0]) {
      normalized := "_" + normalized;
    }
    EnvNameLegal(upper);
    assert Tokens(upper) != [];
    assert normalized == EnvName(upper);
    if !LegalName(normalized) {
      return "";
    }
    r := normalized;
  }

  lemma {:induction false} UpperConcat(s: string, t: string)
    ensures UpperAll(s + t) == UpperAll(s) + UpperAll(t)
  {
    if s == "" {
      assert s + t == t;
    } else {
      UpperConcat(s[1..], t);
      assert (s + t)[1..] == s[1..] + t;
    }
  }

  lemma {:induction false} UpperSame(s: string)
    requires forall i :: 0 <= i < |s| ==> Upper(s[i]) == s[i]
    ensures UpperAll(s) == s
  {
    if s != "" {
      UpperSame(s[1..]);
    }
  }

  lemma {:induction false} CasedIsUpper(casing: Casing, s: string)
    requires UpperCases(casing)
    ensures UpperAll(Cased(casing, s)) == Cased(casing, s)
    ensures Cased(casing, s) == "" <==> s == ""
  {
    if s != "" {
      CasedIsUpper(casing, s[1..]);
      UpperSame(casing(s[0]));
      UpperConcat(casing(s[0]), Cased(casing, s[1..]));
    }
  }

  lemma {:induction false} CasedAscii(casing: Casing, s: string)
    requires UpperCases(casing)
    ensures (forall i :: 0 <= i < |s| ==> s[i] as int < 128) ==> Cased(casing, s) == UpperAll(s)
  {
    if s != "" && forall i :: 0 <= i < |s| ==> s[i] as int < 128 {
      assert forall i :: 0 <= i < |s[1..]| ==> s[1..][i] == s[i + 1];
      CasedAscii(casing, s[1..]);
    }
  }

  lemma {:induction false} UpperAt(s: string, n: nat)
    requires n <= |s|
    ensures UpperAll(s)[..n] == UpperAll(s[..n]) && UpperAll(s)[n..] == UpperAll(s[n..])
  {
    assert s == s[..n] + s[n..];
    UpperConcat(s[..n], s[n..]);
  }

  lemma {:induction false} UpperTwice(s: string)
    ensures UpperAll(UpperAll(s)) == UpperAll(s)
  {
    if s != "" {
      UpperTwice(s[1..]);
    }
  }

  lemma {:induction false} UpperRun(s: string)
    ensures WordRun(UpperAll(s)) == WordRun(s)
  {
    if s != "" {
      UpperRun(s[1..]);
    }
  }

  lemma {:induction false} UpperTokens(s: string)
    ensures Tokens(UpperAll(s)) == Tokens(s)
    decreases |s|
  {
    if s != "" {
      var u, n := UpperAll(s), WordRun(s);
      UpperRun(s);
      assert IsWordChar(u[0]) == IsWordChar(s[0]) && u[1..] == UpperAll(s[1..]);
      if IsWordChar(s[0]) {
        UpperAt(s, n);
        UpperTwice(s[..n]);
        UpperTokens(s[n..]);
      } else {
        UpperTokens(s[1..]);
      }
    }
  }

  lemma EnvNameUpper(s: string)
    ensures EnvName(UpperAll(s)) == EnvName(s)
  {
    UpperTokens(s);
  }

  lemma NoWords()
    ensures EnvName("") == ""
  {}

  /** The label after the first two replacements, and what the next two make of it. */
  lemma Collapsed(s: string)
    requires s != ""
    ensures var c := Collapse(ReplaceJunk(UpperAll(s), false), false);
            var body := (if IsWordChar(s[0]) then "" else "_") + Joined(Tokens(s));
            c != "" && CollapseLeading(c) == c
            && (Tokens(s) == [] ==> c == "_")
            && (Tokens(s) != [] ==>
                  StripTrailing(c) == body && (c[|c| - 1] != '_' ==> c == body) && (c[|c| - 1] == '_' ==> |c| > 1)
                  && Tokens(s)[0] != "" && IsUpperOrDigit(Tokens(s)[0][0])
                  && Joined(Tokens(s)) != "" && Joined(Tokens(s))[0] == Tokens(s)[0][0])
  {
    NormalizedSquash(s, false, false);
    SquashTokens(s);
    SquashNoDouble(s, false);
    NoLeadingRun(Squash(s, false));
    StripSquash(s);
    TokensNonEmpty(s);
    if Tokens(s) != [] {
      JoinedEnds(Tokens(s));
      assert IsWord(Tokens(s)[0]);
    }
  }

  // ---- the description --------------------------------------------------------------

  /** Length of the leading run of letters and digits. */
  function WordRun(s: string): (n: nat)
    ensures n <= |s| && forall i :: 0 <= i < n ==> IsWordChar(s[i])
    ensures n < |s| ==> !IsWordChar(s[n])
  {
    if s == "" || !IsWordChar(s[0]) then 0 else 1 + WordRun(s[1..])
  }

  /** The words of a label, in upper case. */
  function Tokens(s: string): seq<string>
    decreases |s|
  {
    if s == "" then []
    else if !IsWordChar(s[0]) then Tokens(s[1..])
    else [UpperAll(s[..WordRun(s)])] + Tokens(s[WordRun(s)..])
  }

  function Joined(words: seq<string>): string {
    if words == [] then "" else if |words| == 1 then words[0] else words[0] + "_" + Joined(words[1..])
  }

  /** The words joined by underscores, after an underscore when the label starts with
      another character or the first word with a digit; empty without words. */
  function EnvName(itemLabel: string): string {
    var words := Tokens(itemLabel);
    TokensNonEmpty(itemLabel);
    if words == [] then ""
    else (if !IsWordChar(itemLabel[0]) || IsDigit(words[0][0]) then "_" else "") + Joined(words)
  }

  ghost predicate IsWord(w: string) {
    w != "" && forall i :: 0 <= i < |w| ==> IsUpperOrDigit(w[i])
  }

  lemma {:induction false} UpperWord(s: string)
    requires forall i :: 0 <= i < |s| ==> IsWordChar(s[i])
    ensures forall i :: 0 <= i < |s| ==> IsUpperOrDigit(UpperAll(s)[i])
  {
    if s != "" {
      UpperWord(s[1..]);
    }
  }

  lemma {:induction false} TokensNonEmpty(s: string)
    ensures forall i :: 0 <= i < |Tokens(s)| ==> IsWord(Tokens(s)[i])
    ensures Tokens(s) != [] ==> s != ""
    ensures Tokens(s) == [] <==> forall i :: 0 <= i < |s| ==> !IsWordChar(s[i])
    decreases |s|
  {
    if s == "" {
    } else if !IsWordChar(s[0]) {
      TokensNonEmpty(s[1..]);
      assert forall i :: 0 < i < |s| ==> s[i] == s[1..][i - 1];
      assert forall i :: 0 <= i < |s[1..]| ==> s[1..][i] == s[i + 1];
    } else {
      TokensNonEmpty(s[WordRun(s)..]);
      UpperWord(s[..WordRun(s)]);
    }
  }

  // ---- the replacements meet the description -------------------------------------------

  /** Both replacement passes at once. */
  function Squash(s: string, inRun: bool): string {
    if s == "" then ""
    else if IsWordChar(s[0]) then [Upper(s[0])] + Squash(s[1..], false)
    else (if inRun then "" else "_") + Squash(s[1..], true)
  }

  lemma {:induction false} NormalizedSquash(s: string, inJunk: bool, inRun: bool)
    requires inJunk ==> inRun
    ensures Collapse(ReplaceJunk(UpperAll(s), inJunk), inRun) == Squash(s, inRun)
  {
    if s != "" {
      var c, rest := Upper(s[0]), UpperAll(s[1..]);
      assert UpperAll(s) == [c] + rest && UpperAll(s)[1..] == rest;
      if IsUpperOrDigit(c) {
        NormalizedSquash(s[1..], false, false);
        CollapseCons(c, ReplaceJunk(rest, false), inRun);
      } else if c == '_' {
        NormalizedSquash(s[1..], false, true);
        CollapseCons(c, ReplaceJunk(rest, false), inRun);
      } else {
        NormalizedSquash(s[1..], true, true);
        if inJunk {
          assert ReplaceJunk(UpperAll(s), inJunk) == ReplaceJunk(rest, true);
        } else {
          CollapseCons('_', ReplaceJunk(rest, true), inRun);
        }
      }
    }
  }

  lemma CollapseCons(c: char, s: string, inRun: bool)
    ensures Collapse([c] + s, inRun)
         == (if c != '_' then [c] + Collapse(s, false) else (if inRun then "" else "_") + Collapse(s, true))
  {
    assert ([c] + s)[1..] == s;
  }

  lemma {:induction false} SquashWord(a: string, t: string, inRun: bool)
    requires forall i :: 0 <= i < |a| ==> IsWordChar(a[i])
    ensures Squash(a + t, inRun) == UpperAll(a) + Squash(t, inRun && a == "")
  {
    if a == "" {
      assert a + t == t;
    } else {
      assert (a + t)[1..] == a[1..] + t;
      SquashWord(a[1..], t, false);
    }
  }

  function DropSeparators(s: string): (r: string)
    ensures |r| <= |s| && (r == "" || IsWordChar(r[0]))
    ensures s != "" && !IsWordChar(s[0]) ==> |r| < |s|
  {
    if s == "" || IsWordChar(s[0]) then s else DropSeparators(s[1..])
  }

  lemma {:induction false} SquashSkips(s: string)
    ensures Squash(s, true) == Squash(DropSeparators(s), false)
    ensures Tokens(s) == Tokens(DropSeparators(s))
    ensures s != "" && DropSeparators(s) != "" ==> s[|s| - 1] == DropSeparators(s)[|DropSeparators(s)| - 1]
  {
    if s != "" && !IsWordChar(s[0]) {
      SquashSkips(s[1..]);
    }
  }

  /** Whether an underscore is left at the end. */
  predicate Trails(s: string) {
    s != "" && !IsWordChar(s[|s| - 1])
  }

  /** The words between the leading and the trailing underscore. */
  function Framed(s: string): string
    requires s != ""
  {
    (if IsWordChar(s[0]) then "" else "_") + Joined(Tokens(s)) + (if Trails(s) then "_" else "")
  }

  lemma {:induction false} SquashTokens(s: string)
    ensures Tokens(s) == [] ==> Squash(s, false) == if s == "" then "" else "_"
    ensures Tokens(s) != [] ==> s != "" && Squash(s, false) == Framed(s)
    decreases |s|
  {
    if s == "" {
    } else if IsWordChar(s[0]) {
      var n := WordRun(s);
      SquashTokens(s[n..]);
      SquashFromWord(s, n, s[..n], s[n..]);
    } else {
      SquashTokens(DropSeparators(s));
      SquashFromSeparator(s, DropSeparators(s));
    }
  }

  lemma FirstToken(s: string)
    requires s != "" && IsWordChar(s[0])
    ensures Tokens(s) == [UpperAll(s[..WordRun(s)])] + Tokens(s[WordRun(s)..])
    ensures WordRun(s) > 0
  {}

  lemma TrailsFromWord(s: string, a: string, t: string)
    requires a != "" && IsWordChar(a[|a| - 1]) && s == a + t
    ensures Trails(s) == Trails(t)
  {
    hide IsWordChar;
    if t == "" {
      assert s[|s| - 1] == a[|a| - 1];
    } else {
      assert s[|s| - 1] == t[|t| - 1];
    }
  }

  lemma JoinedCons(w: string, rest: seq<string>)
    ensures Joined([w] + rest) == if rest == [] then w else w + "_" + Joined(rest)
  {
    assert ([w] + rest)[1..] == rest;
  }

  lemma SquashFromWord(s: string, n: nat, a: string, t: string)
    requires s != "" && IsWordChar(s[0]) && n == WordRun(s) && a == s[..n] && t == s[n..]
    requires Tokens(t) == [] ==> Squash(t, false) == if t == "" then "" else "_"
    requires Tokens(t) != [] ==> t != "" && Squash(t, false) == Framed(t)
    ensures Tokens(s) != [] && Squash(s, false) == Framed(s)
  {
    hide Squash, Tokens, UpperAll, IsWordChar, Joined, Trails;
    assert s == a + t;
    SquashWord(a, t, false);
    FirstToken(s);
    TrailsFromWord(s, a, t);
    TrailsAfterWord(s, n);
    JoinedCons(UpperAll(a), Tokens(t));
    if Tokens(t) != [] {
      var w, j, tr := UpperAll(a), Joined(Tokens(t)), if Trails(t) then "_" else "";
      assert w + ("_" + j + tr) == "" + (w + "_" + j) + tr;
    }
  }

  /** What follows a word run is nothing or starts with a separator; with no word in it, it
      ends with one. */
  lemma TrailsAfterWord(s: string, n: nat)
    requires s != "" && IsWordChar(s[0]) && n == WordRun(s)
    ensures s[n..] != "" ==> !IsWordChar(s[n])
    ensures Tokens(s[n..]) == [] ==> Trails(s[n..]) == (s[n..] != "")
  {
    TokensNonEmpty(s[n..]);
  }

  lemma SquashSeparator(s: string)
    requires s != "" && !IsWordChar(s[0])
    ensures Squash(s, false) == "_" + Squash(s[1..], true)
    ensures DropSeparators(s) == DropSeparators(s[1..])
  {}

  lemma SquashFromSeparator(s: string, t: string)
    requires s != "" && !IsWordChar(s[0]) && t == DropSeparators(s)
    requires Tokens(t) == [] ==> Squash(t, false) == if t == "" then "" else "_"
    requires Tokens(t) != [] ==> t != "" && Squash(t, false) == Framed(t)
    ensures Tokens(s) == [] ==> Squash(s, false) == "_"
    ensures Tokens(s) != [] ==> Squash(s, false) == Framed(s)
  {
    hide Squash, Tokens, Joined, DropSeparators, IsWordChar;
    SquashSkips(s[1..]);
    SquashSkips(s);
    SquashSeparator(s);
    TokensNonEmpty(t);
    assert t != "" ==> IsWordChar(t[0]);
  }

  ghost predicate NoDouble(s: string) {
    forall i :: 0 <= i < |s| - 1 ==> !(s[i] == '_' && s[i + 1] == '_')
  }

  lemma {:induction false} SquashNoDouble(s: string, inRun: bool)
    ensures NoDouble(Squash(s, inRun))
    ensures inRun && Squash(s, inRun) != "" ==> Squash(s, inRun)[0] != '_'
  {
    if s != "" {
      SquashNoDouble(s[1..], !IsWordChar(s[0]));
      var r := Squash(s[1..], !IsWordChar(s[0]));
      if IsWordChar(s[0]) {
        assert Squash(s, inRun) == [Upper(s[0])] + r;
      } else if !inRun {
        assert Squash(s, inRun) == "_" + r;
      } else {
        assert Squash(s, inRun) == r;
      }
    }
  }

  /** After collapsing, the leading-run replacement finds nothing to do. */
  lemma NoLeadingRun(s: string)
    requires NoDouble(s)
    ensures CollapseLeading(s) == s
  {}

  lemma {:induction false} JoinedEnds(words: seq<string>)
    requires words != [] && forall i :: 0 <= i < |words| ==> IsWord(words[i])
    ensures var j := Joined(words);
            words[0] != "" && j != "" && j[0] == words[0][0] && j[|j| - 1] != '_' && NoDouble(j)
            && forall i :: 0 <= i < |j| ==> IsUpperOrDigit(j[i]) || j[i] == '_'
  {
    if |words| > 1 {
      JoinedEnds(words[1..]);
      var rest := Joined(words[1..]);
      assert Joined(words) == words[0] + "_" + rest;
      assert rest[0] == words[1][0] && rest[0] != '_';
    }
  }

  lemma StripSquash(s: string)
    requires s != ""
    ensures Tokens(s) != [] ==>
              StripTrailing(Squash(s, false)) == (if IsWordChar(s[0]) then "" else "_") + Joined(Tokens(s))
  {
    SquashTokens(s);
    TokensNonEmpty(s);
    if Tokens(s) != [] {
      JoinedEnds(Tokens(s));
      var body := (if IsWordChar(s[0]) then "" else "_") + Joined(Tokens(s));
      assert body[|body| - 1] != '_';
      if Trails(s) {
        assert (body + "_")[..|body|] == body;
      } else {
        assert body + "" == body;
      }
    }
  }

  // ---- what callers rely on ---------------------------------------------------------------

  /** The name is empty exactly when the label has no letter or digit; otherwise it is
      legal, with no double and no trailing underscore. */
  lemma EnvNameLegal(itemLabel: string)
    ensures EnvName(itemLabel) == "" <==> forall i :: 0 <= i < |itemLabel| ==> !IsWordChar(itemLabel[i])
    ensures EnvName(itemLabel) != "" ==>
      LegalName(EnvName(itemLabel)) && NoDouble(EnvName(itemLabel))
      && EnvName(itemLabel)[|EnvName(itemLabel)| - 1] != '_'
  {
    TokensNonEmpty(itemLabel);
    if Tokens(itemLabel) != [] {
      JoinedEnds(Tokens(itemLabel));
    }
  }

  /** The letters and digits of a text, in upper case. */
  function WordChars(s: string): string {
    if s == "" then "" else (if IsWordChar(s[0]) then [Upper(s[0])] else "") + WordChars(s[1..])
  }

  lemma {:induction false} WordCharsConcat(s: string, t: string)
    ensures WordChars(s + t) == WordChars(s) + WordChars(t)
  {
    if s == "" {
      assert s + t == t;
    } else {
      WordCharsConcat(s[1..], t);
      assert (s + t)[1..] == s[1..] + t;
    }
  }

  lemma {:induction false} WordCharsOfWord(s: string)
    requires forall i :: 0 <= i < |s| ==> IsWordChar(s[i])
    ensures WordChars(s) == UpperAll(s) && WordChars(UpperAll(s)) == UpperAll(s)
  {
    if s != "" {
      WordCharsOfWord(s[1..]);
    }
  }

  lemma {:induction false} WordCharsJoined(words: seq<string>, rest: string)
    ensures WordChars("_" + rest) == WordChars(rest)
    ensures words != [] ==> WordChars(Joined(words)) == WordChars(words[0]) + WordChars(Joined(words[1..]))
  {
    assert ("_" + rest)[1..] == rest;
    if words != [] {
      var more := Joined(words[1..]);
      JoinedSplit(words);
      assert ("_" + more)[1..] == more;
      if |words| == 1 {
        assert Joined(words[1..]) == "";
      } else {
        WordCharsConcat(words[0], "_" + more);
      }
    }
  }

  lemma {:induction false} WordCharsTokens(s: string)
    ensures WordChars(Joined(Tokens(s))) == WordChars(s)
    decreases |s|
  {
    if s != "" {
      if IsWordChar(s[0]) {
        var n := WordRun(s);
        WordCharsTokens(s[n..]);
        FirstToken(s);
        assert Tokens(s)[1..] == Tokens(s[n..]);
        WordCharsJoined(Tokens(s), "");
        WordCharsOfWord(s[..n]);
        WordCharsConcat(s[..n], s[n..]);
        assert s == s[..n] + s[n..];
      } else {
        WordCharsTokens(s[1..]);
      }
    }
  }

  /** A name keeps every letter and digit of the label, in order and in upper case, and adds
      nothing but underscores. */
  lemma NameKeepsWordChars(itemLabel: string)
    ensures WordChars(EnvName(itemLabel)) == WordChars(itemLabel)
  {
    hide Tokens, Joined, WordChars, IsWordChar;
    WordCharsTokens(itemLabel);
    WordCharsJoined([], Joined(Tokens(itemLabel)));
    assert "" + Joined(Tokens(itemLabel)) == Joined(Tokens(itemLabel));
    if Tokens(itemLabel) == [] {
      JoinedNone();
    }
  }

  lemma JoinedNone()
    ensures Joined([]) == ""
  {}

  /** One stands at the front exactly when the label starts with another character or with a
      digit. */
  lemma NameStart(itemLabel: string)
    requires EnvName(itemLabel) != ""
    ensures itemLabel != "" && (EnvName(itemLabel)[0] == '_' <==> !IsWordChar(itemLabel[0]) || IsDigit(itemLabel[0]))
  {
    hide Tokens, Joined, WordRun;
    TokensNonEmpty(itemLabel);
    JoinedEnds(Tokens(itemLabel));
    if IsWordChar(itemLabel[0]) {
      FirstToken(itemLabel);
      var w := itemLabel[..WordRun(itemLabel)];
      assert UpperAll(w)[0] == Upper(w[0]);
    }
  }

  lemma {:induction false} UpperWordSame(w: string)
    requires forall i :: 0 <= i < |w| ==> IsUpperOrDigit(w[i])
    ensures UpperAll(w) == w
    ensures forall i :: 0 <= i < |w| ==> IsWordChar(w[i])
  {
    if w != "" {
      UpperWordSame(w[1..]);
      assert forall i :: 0 < i < |w| ==> w[i] == w[1..][i - 1];
    }
  }

  lemma {:induction false} RunOfWord(w: string, t: string)
    requires forall i :: 0 <= i < |w| ==> IsWordChar(w[i])
    requires t == "" || !IsWordChar(t[0])
    ensures WordRun(w + t) == |w|
  {
    if w == "" {
      assert w + t == t;
    } else {
      assert (w + t)[1..] == w[1..] + t;
      RunOfWord(w[1..], t);
    }
  }

  lemma JoinedSplit(words: seq<string>)
    requires words != []
    ensures Joined(words) == words[0] + (if |words| == 1 then "" else "_" + Joined(words[1..]))
  {}

  /** The first word of a text that starts with a whole word. */
  lemma TokensOfWord(w: string, t: string)
    requires IsWord(w) && (t == "" || t[0] == '_')
    ensures Tokens(w + t) == [w] + Tokens(t)
  {
    hide Tokens;
    UpperWordSame(w);
    RunOfWord(w, t);
    assert (w + t)[..|w|] == w && (w + t)[|w|..] == t && (w + t)[0] == w[0];
    FirstToken(w + t);
  }

  lemma TokensAfterSeparator(t: string)
    ensures Tokens("_" + t) == Tokens(t)
    ensures Tokens("") == []
  {
    assert ("_" + t)[1..] == t;
  }

  /** The words of joined words are those words. */
  lemma {:induction false} TokensOfJoined(words: seq<string>)
    requires forall i :: 0 <= i < |words| ==> IsWord(words[i])
    ensures Tokens(Joined(words)) == words
  {
    hide Tokens, Joined, IsWord;
    if words != [] {
      var t := if |words| == 1 then "" else "_" + Joined(words[1..]);
      JoinedSplit(words);
      TokensOfWord(words[0], t);
      TokensAfterSeparator(Joined(words[1..]));
      TokensOfJoined(words[1..]);
      assert words == [words[0]] + words[1..];
    } else {
      JoinedNothing();
    }
  }

  lemma JoinedNothing()
    ensures Tokens(Joined([])) == []
  {}

  /** Normalizing a normalized name changes nothing. */
  lemma Idempotent(itemLabel: string)
    ensures EnvName(EnvName(itemLabel)) == EnvName(itemLabel)
  {
    TokensNonEmpty(itemLabel);
    var words := Tokens(itemLabel);
    if words != [] {
      JoinedEnds(words);
      TokensOfJoined(words);
      var j := Joined(words);
      var e := EnvName(itemLabel);
      UpperWordSame(words[0]);
      if e != j {
        assert e == "_" + j && e[1..] == j;
      }
    }
  }
}
