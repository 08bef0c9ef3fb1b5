/** String operations of the language the repository is written in. */
module Text {

  predicate IsLineTerminator(c: char) {
    c == '\n' || c == '\r' || c == '\U{2028}' || c == '\U{2029}'
  }

  /** The characters `\s` matches and `trim` strips. */
  predicate IsSpace(c: char) {
    || c == ' ' || c == '\t' || c == '\U{0B}' || c == '\U{0C}' || IsLineTerminator(c)
    || c == '\U{A0}' || c == '\U{1680}' || '\U{2000}' <= c <= '\U{200A}'
    || c == '\U{202F}' || c == '\U{205F}' || c == '\U{3000}' || c == '\U{FEFF}'
  }

  /** White space and line terminators, one by one (sections 12.2 and 12.3 of ECMA-262). */
  lemma SpacesListed(c: char)
    ensures IsSpace(c) <==>
            c in "\t\n\U{0B}\U{0C}\r \U{A0}\U{1680}\U{2000}\U{2001}\U{2002}\U{2003}\U{2004}\U{2005}\U{2006}"
               + "\U{2007}\U{2008}\U{2009}\U{200A}\U{2028}\U{2029}\U{202F}\U{205F}\U{3000}\U{FEFF}"
    ensures IsLineTerminator(c) <==> c in "\n\r\U{2028}\U{2029}"
  {}

  /** `toUpperCase` on ASCII; other characters are left alone. */
  function Upper(c: char): char {
    if 'a' <= c <= 'z' then (c as int - 32) as char else c
  }

  const SMALL_LETTERS := "abcdefghijklmnopqrstuvwxyz"
  const CAPITALS := "ABCDEFGHIJKLMNOPQRSTUVWXYZ"

  /** Each small letter becomes the capital of the same place, and nothing else changes. */
  lemma UpperListed(c: char, i: nat)
    requires i < 26
    ensures SMALL_LETTERS[i] == 'a' + i as char && CAPITALS[i] == 'A' + i as char
    ensures Upper(SMALL_LETTERS[i]) == CAPITALS[i]
    ensures c !in SMALL_LETTERS ==> Upper(c) == c
  {
    if c !in SMALL_LETTERS && 'a' <= c <= 'z' {
      assert c != SMALL_LETTERS[c as int - 'a' as int];
    }
  }

  /** What `toUpperCase` makes of one character, which may be several. */
  type Casing = char -> string

  /** On ASCII it is `Upper`; and its results are not empty and hold no small ASCII letter. */
  ghost predicate UpperCases(casing: Casing) {
    && (forall c :: c as int < 128 ==> casing(c) == [Upper(c)])
    && (forall c :: casing(c) != "")
    && (forall c, i :: 0 <= i < |casing(c)| ==> Upper(casing(c)[i]) == casing(c)[i])
  }

  /** Leaving every other character alone is one such casing. */
  lemma AsciiUpperCases()
    ensures UpperCases(c => [Upper(c)])
  {}

  /** `s.toUpperCase()`. */
  function Cased(casing: Casing, s: string): string {
    if s == "" then "" else casing(s[0]) + Cased(casing, s[1..])
  }

  lemma Associative<T>(a: seq<T>, b: seq<T>, c: seq<T>)
    ensures a + (b + c) == (a + b) + c
  {}

  function TrimStart(s: string): (r: string)
    ensures r == "" || !IsSpace(r[0])
    ensures |r| <= |s|
  {
    if s != "" && IsSpace(s[0]) then TrimStart(s[1..]) else s
  }

  function TrimEnd(s: string): (r: string)
    ensures r == "" || !IsSpace(r[|r| - 1])
    ensures r <= s
  {
    if s != "" && IsSpace(s[|s| - 1]) then TrimEnd(s[..|s| - 1]) else s
  }

  function Trim(s: string): string {
    TrimEnd(TrimStart(s))
  }

  /** Whether `trim` leaves the text alone. */
  predicate Trimmed(s: string) {
    s == "" || (!IsSpace(s[0]) && !IsSpace(s[|s| - 1]))
  }

  lemma {:induction false} TrimEndShort(s: string)
    ensures |TrimEnd(s)| == |s| <==> s == "" || !IsSpace(s[|s| - 1])
  {}

  lemma TrimExact(s: string)
    ensures Trim(s) == s <==> Trimmed(s)
    ensures Trimmed(Trim(s))
  {
    var t := TrimStart(s);
    var r := TrimEnd(t);
    if r != "" {
      assert r[0] == t[0];
    }
    TrimEndShort(t);
    if Trim(s) == s {
      assert |t| == |s|;
      TrimStartShort(s);
    }
  }

  lemma {:induction false} TrimStartShort(s: string)
    ensures |TrimStart(s)| == |s| <==> s == "" || !IsSpace(s[0])
  {}

  ghost predicate AllSpace(s: string) {
    forall i :: 0 <= i < |s| ==> IsSpace(s[i])
  }

  lemma {:induction false} TrimStartDrops(pre: string, s: string)
    requires AllSpace(pre)
    ensures TrimStart(pre + s) == TrimStart(s)
  {
    if pre == "" {
      assert pre + s == s;
    } else {
      assert (pre + s)[1..] == pre[1..] + s;
      TrimStartDrops(pre[1..], s);
    }
  }

  lemma {:induction false} TrimEndDrops(s: string, post: string)
    requires AllSpace(post)
    ensures TrimEnd(s + post) == TrimEnd(s)
  {
    if post == "" {
      assert s + post == s;
    } else {
      var n := |post| - 1;
      assert (s + post)[..|s + post| - 1] == s + post[..n];
      TrimEndDrops(s, post[..n]);
    }
  }

  /** Trimming takes off the white space at both ends and nothing else. */
  lemma TrimIs(pre: string, mid: string, post: string)
    requires AllSpace(pre) && AllSpace(post) && Trimmed(mid)
    ensures Trim(pre + mid + post) == mid
  {
    hide IsSpace;
    if mid == "" {
      assert pre + mid + post == (pre + post) + "";
      TrimStartDrops(pre + post, "");
    } else {
      assert pre + mid + post == pre + (mid + post);
      TrimStartDrops(pre, mid + post);
      assert TrimStart(mid + post) == mid + post;
      TrimEndDrops(mid, post);
    }
  }

  /** `s.split("\n")`: never empty. */
  function Split(s: string): (parts: seq<string>)
    ensures |parts| > 0
  {
    if s == "" then [""]
    else
      var rest := Split(s[1..]);
      if s[0] == '\n' then [""] + rest else [[s[0]] + rest[0]] + rest[1..]
  }

  /** The newline-terminated lines of a text. */
  function Lines(s: string): seq<string> {
    Split(s)[..|Split(s)| - 1]
  }

  /** What follows the last newline. */
  function Tail(s: string): string {
    Split(s)[|Split(s)| - 1]
  }

  ghost predicate NewlineFree(s: string) {
    '\n' !in s
  }

  function Unlines(lines: seq<string>): string {
    if lines == [] then "" else lines[0] + "\n" + Unlines(lines[1..])
  }

  /** A text is its lines and its tail, none of which contains a newline. */
  lemma {:induction false} SplitParts(s: string)
    ensures Unlines(Lines(s)) + Tail(s) == s
    ensures NewlineFree(Tail(s)) && forall i :: 0 <= i < |Lines(s)| ==> NewlineFree(Lines(s)[i])
  {
    if s != "" {
      var rest, parts := Split(s[1..]), Split(s);
      SplitParts(s[1..]);
      assert s == [s[0]] + s[1..];
      if s[0] == '\n' {
        assert Lines(s) == [""] + Lines(s[1..]);
        assert Lines(s)[1..] == Lines(s[1..]);
        assert Unlines(Lines(s)) == "\n" + Unlines(Lines(s[1..]));
      } else if |rest| == 1 {
        assert Lines(s) == [] && Tail(s) == [s[0]] + rest[0];
      } else {
        assert Lines(s)[0] == [s[0]] + Lines(s[1..])[0];
        assert Lines(s)[1..] == Lines(s[1..])[1..];
        assert Unlines(Lines(s)) == [s[0]] + Unlines(Lines(s[1..]));
      }
    }
  }

  /** Splitting line by line: prefixing a complete line. */
  lemma {:induction false} SplitLine(line: string, s: string)
    requires NewlineFree(line)
    ensures Split(line + "\n" + s) == [line] + Split(s)
  {
    var t := line + "\n" + s;
    if line == "" {
      assert t[1..] == s;
    } else {
      assert t[0] == line[0] && t[1..] == line[1..] + "\n" + s;
      SplitLine(line[1..], s);
      assert [line[0]] + line[1..] == line;
    }
  }

  lemma {:induction false} SplitTail(s: string)
    requires NewlineFree(s)
    ensures Split(s) == [s]
  {
    if s != "" {
      SplitTail(s[1..]);
      assert [s[0]] + s[1..] == s;
    }
  }

  /** The only way to write a text as newline-free lines and a newline-free tail. */
  lemma {:induction false} SplitUnique(lines: seq<string>, tail: string)
    requires NewlineFree(tail) && forall i :: 0 <= i < |lines| ==> NewlineFree(lines[i])
    ensures Lines(Unlines(lines) + tail) == lines && Tail(Unlines(lines) + tail) == tail
  {
    var s := Unlines(lines) + tail;
    if lines == [] {
      assert s == tail;
      SplitTail(tail);
    } else {
      SplitUnique(lines[1..], tail);
      var rest := Unlines(lines[1..]) + tail;
      assert s == lines[0] + "\n" + rest;
      SplitLine(lines[0], rest);
      assert Split(s) == [lines[0]] + Split(rest);
      assert Lines(s) == [lines[0]] + Lines(rest);
    }
  }

  lemma {:induction false} UnlinesConcat(a: seq<string>, b: seq<string>)
    ensures Unlines(a + b) == Unlines(a) + Unlines(b)
  {
    if a == [] {
      assert a + b == b;
    } else {
      UnlinesConcat(a[1..], b);
      assert (a + b)[1..] == a[1..] + b;
    }
  }

  /** Splitting may be resumed from the tail. */
  lemma SplitResumes(s: string, t: string)
    ensures Lines(s + t) == Lines(s) + Lines(Tail(s) + t)
    ensures Tail(s + t) == Tail(Tail(s) + t)
  {
    hide Lines, Tail, Unlines;
    var u := Tail(s) + t;
    SplitParts(s);
    SplitParts(u);
    UnlinesConcat(Lines(s), Lines(u));
    Associative(Unlines(Lines(s)), Tail(s), t);
    Associative(Unlines(Lines(s)), Unlines(Lines(u)), Tail(u));
    SplitUnique(Lines(s) + Lines(u), Tail(u));
  }
}
