/** Exporting entries as `.env` text and importing such text. */
module DotEnv {
  import opened Basics
  import opened Text
  import opened EnvKey

  datatype Entry = Entry(key: string, value: string)

  // ---- printing ----------------------------------------------------------------------

  function MapJunk(s: string): (r: string)
    ensures |r| == |s|
    ensures forall i :: 0 <= i < |r| ==> IsUpperOrDigit(r[i]) || r[i] == '_'
  {
    if s == "" then "" else [if IsUpperOrDigit(s[0]) || s[0] == '_' then s[0] else '_'] + MapJunk(s[1..])
  }

  /** The normalized name, or failing that the upper-cased label with `_` for junk. */
  function ToEnvKey(casing: Casing, name: string): string {
    var normalized := EnvName(Cased(casing, name));
    if normalized != "" then normalized else MapJunk(Cased(casing, name))
  }

  /** `s.replace(/c/g, t)`. */
  function ReplaceAll(s: string, c: char, t: string): string {
    if s == "" then "" else (if s[0] == c then t else [s[0]]) + ReplaceAll(s[1..], c, t)
  }

  function Escaped(value: string): string {
    ReplaceAll(ReplaceAll(ReplaceAll(value, '\\', "\\\\"), '"', "\\\""), '\n', "\\n")
  }

  predicate NeedsQuotes(value: string) {
    '\n' in value || '"' in value || '\'' in value
  }

  function QuoteEnvValue(value: string): string {
    if NeedsQuotes(value) then "\"" + Escaped(value) + "\"" else value
  }

  function PrintedLine(casing: Casing, e: Entry): string {
    ToEnvKey(casing, e.key) + "=" + QuoteEnvValue(e.value)
  }

  function PrintedLines(casing: Casing, entries: seq<Entry>): (lines: seq<string>)
    ensures |lines| == |entries|
  {
    seq(|entries|, i requires 0 <= i < |entries| => PrintedLine(casing, entries[i]))
  }

  /** The console output: one line an entry. */
  method PrintEntries(casing: Casing, entries: seq<Entry>) returns (output: string)
    ensures output == Unlines(PrintedLines(casing, entries))
  {
    hide ToEnvKey, QuoteEnvValue;
    output := "";
    for i := 0 to |entries|
      invariant output == Unlines(PrintedLines(casing, entries[..i]))
    {
      assert PrintedLines(casing, entries[..i + 1])
          == PrintedLines(casing, entries[..i]) + [PrintedLine(casing, entries[i])];
      UnlinesConcat(PrintedLines(casing, entries[..i]), [PrintedLine(casing, entries[i])]);
      OneLine(PrintedLine(casing, entries[i]));
      output := output + (ToEnvKey(casing, entries[i].key) + "=" + QuoteEnvValue(entries[i].value)) + "\n";
    }
    assert entries[..|entries|] == entries;
  }

  lemma OneLine(s: string)
    ensures Unlines([s]) == s + "\n"
  {
    assert [s][1..] == [];
  }

  // ---- parsing -----------------------------------------------------------------------

  /** `s.indexOf(c)` for a character that occurs. */
  function IndexOf(s: string, c: char): (i: nat)
    requires c in s
    ensures i < |s| && s[i] == c && c !in s[..i]
  {
    if s[0] == c then 0
    else
      assert s == [s[0]] + s[1..];
      var i := IndexOf(s[1..], c);
      assert s[..i + 1] == [s[0]] + s[1..][..i];
      i + 1
  }

  predicate NoTerminator(s: string) {
    forall i :: 0 <= i < |s| ==> !IsLineTerminator(s[i])
  }

  /** `/^(['"]).*\1$/`. */
  predicate IsQuoted(raw: string) {
    && |raw| >= 2
    && (raw[0] == '\'' || raw[0] == '"')
    && raw[|raw| - 1] == raw[0]
    && NoTerminator(raw[1..|raw| - 1])
  }

  /** A pair of equal quotes around a text on one line is taken off. */
  function Unquoted(raw: string): string {
    if IsQuoted(raw) then raw[1..|raw| - 1] else raw
  }

  function ParseLine(line: string): Option<Entry> {
    var t := Trim(line);
    if t == "" || t[0] == '#' || '=' !in t then None
    else
      var i := IndexOf(t, '=');
      var key, raw := Trim(t[..i]), Trim(t[i + 1..]);
      if key == "" then None
      else Some(Entry(key, Unquoted(raw)))
  }

  function ParseLines(lines: seq<string>): (r: seq<Entry>)
    ensures |r| <= |lines|
  {
    if lines == [] then []
    else Listed(ParseLine(lines[0])) + ParseLines(lines[1..])
  }

  function Listed(e: Option<Entry>): (r: seq<Entry>)
    ensures |r| <= 1
  {
    match e case Some(x) => [x] case None => []
  }

  function ParseEnvFile(content: string): seq<Entry> {
    ParseLines(Split(content))
  }

  // ---- escaping ------------------------------------------------------------------------

  predicate NeedsEscape(c: char) {
    c == '\\' || c == '"' || c == '\n'
  }

  function EscapeChar(c: char): (r: string)
    ensures |r| >= 1
  {
    if c == '\\' then "\\\\" else if c == '"' then "\\\"" else if c == '\n' then "\\n" else [c]
  }

  /** The three replacements, character by character. */
  function Escape(s: string): (r: string)
    ensures |r| >= |s|
  {
    if s == "" then "" else EscapeChar(s[0]) + Escape(s[1..])
  }

  lemma {:induction false} ReplaceConcat(s: string, u: string, c: char, t: string)
    ensures ReplaceAll(s + u, c, t) == ReplaceAll(s, c, t) + ReplaceAll(u, c, t)
  {
    if s == "" {
      assert s + u == u;
    } else {
      ReplaceConcat(s[1..], u, c, t);
      assert (s + u)[1..] == s[1..] + u;
      var x := if s[0] == c then t else [s[0]];
      Associative(x, ReplaceAll(s[1..], c, t), ReplaceAll(u, c, t));
    }
  }

  lemma {:induction false} EscapedIsEscape(s: string)
    ensures Escaped(s) == Escape(s)
  {
    if s != "" {
      EscapedIsEscape(s[1..]);
      var a := if s[0] == '\\' then "\\\\" else [s[0]];
      var x := ReplaceAll(s[1..], '\\', "\\\\");
      ReplaceConcat(a, x, '"', "\\\"");
      var b, y := ReplaceAll(a, '"', "\\\""), ReplaceAll(x, '"', "\\\"");
      ReplaceConcat(b, y, '\n', "\\n");
      assert ReplaceAll(b, '\n', "\\n") == Escape([s[0]]) by { EscapeOne(s[0]); }
      assert Escape(s) == Escape([s[0]]) + Escape(s[1..]);
    }
  }

  lemma EscapeOne(c: char)
    ensures var a := if c == '\\' then "\\\\" else [c];
            ReplaceAll(ReplaceAll(a, '"', "\\\""), '\n', "\\n") == Escape([c])
  {
    if c == '\\' {
      assert "\\\\"[1..] == "\\";
    } else if c == '"' {
      assert ReplaceAll([c], '"', "\\\"") == "\\\"";
      assert "\\\""[1..] == "\"";
    } else {
      assert ReplaceAll([c], '"', "\\\"") == [c];
    }
  }

  /** A value is printed as it is unless it has a newline or a quote; otherwise between double
      quotes, with every backslash and double quote behind a backslash, and newlines as the
      backslash and the letter. */
  lemma PrintedValue(casing: Casing, e: Entry)
    ensures var name := ToEnvKey(casing, e.key);
            PrintedLine(casing, e)
            == name + "="
               + if exists i :: 0 <= i < |e.value| && e.value[i] in "\n\"'"
                 then "\"" + Escape(e.value) + "\"" else e.value
    ensures Escape("\\\"\n'") == "\\\\" + "\\\"" + "\\n" + "'"
  {
    hide ToEnvKey, Escaped;
    EscapedIsEscape(e.value);
    assert "\\\"\n'"[1..] == "\"\n'" && "\"\n'"[1..] == "\n'" && "\n'"[1..] == "'";
  }

  lemma {:induction false} EscapeExact(s: string)
    ensures '\n' !in Escape(s)
    ensures Escape(s) == s <==> forall i :: 0 <= i < |s| ==> !NeedsEscape(s[i])
    ensures |Escape(s)| == |s| <==> Escape(s) == s
  {
    if s != "" {
      EscapeExact(s[1..]);
      assert s == [s[0]] + s[1..];
      assert forall i :: 0 <= i < |s[1..]| ==> s[1..][i] == s[i + 1];
      if !NeedsEscape(s[0]) {
        assert Escape(s) == [s[0]] + Escape(s[1..]);
        assert Escape(s)[1..] == Escape(s[1..]);
      }
    }
  }

  // ---- one line -------------------------------------------------------------------------

  lemma KeyCharacters(casing: Casing, name: string)
    requires UpperCases(casing)
    ensures forall i :: 0 <= i < |ToEnvKey(casing, name)| ==>
              IsUpperOrDigit(ToEnvKey(casing, name)[i]) || ToEnvKey(casing, name)[i] == '_'
    ensures ToEnvKey(casing, name) == "" <==> name == ""
  {
    CasedIsUpper(casing, name);
    EnvNameLegal(Cased(casing, name));
  }

  lemma {:induction false} TrimEndAppend(a: string, b: string)
    requires a != "" && !IsSpace(a[|a| - 1])
    ensures TrimEnd(a + b) == a + TrimEnd(b)
  {
    if b == "" {
      assert a + b == a;
    } else if IsSpace(b[|b| - 1]) {
      TrimEndAppend(a, b[..|b| - 1]);
      assert (a + b)[..|a + b| - 1] == a + b[..|b| - 1];
    }
  }

  lemma {:induction false} TrimStartChars(s: string)
    ensures forall c :: c in TrimStart(s) ==> c in s
  {
    if s != "" && IsSpace(s[0]) {
      TrimStartChars(s[1..]);
    }
  }

  lemma TrimChars(s: string)
    ensures forall c :: c in Trim(s) ==> c in s
  {
    TrimStartChars(s);
  }

  /** Splitting the printed line at its first `=`. */
  lemma PrintedParts(key: string, q: string)
    requires forall i :: 0 <= i < |key| ==> IsUpperOrDigit(key[i]) || key[i] == '_'
    ensures var raw := Trim(TrimEnd(q));
            ParseLine(key + "=" + q)
            == if key == "" then None else Some(Entry(key, Unquoted(raw)))
  {
    hide IsQuoted, Trim, TrimEnd, ParseLine;
    var a := key + "=";
    TrimEndAppend(a, q);
    assert key + "=" + q == a + q;
    var t := a + TrimEnd(q);
    TrimPrinted(a + q);
    FirstEquals(key, t, TrimEnd(q));
    TrimExact(key);
    ParseAt(key + "=" + q, t, key, TrimEnd(q));
  }

  lemma ParseAt(line: string, t: string, key: string, rest: string)
    requires t == Trim(line) && t != "" && t[0] != '#' && '=' in t
    requires t[..IndexOf(t, '=')] == key == Trim(key) && t[IndexOf(t, '=') + 1..] == rest
    ensures ParseLine(line)
         == if key == "" then None
            else Some(Entry(key, if IsQuoted(Trim(rest)) then Trim(rest)[1..|Trim(rest)| - 1] else Trim(rest)))
  {
    hide Trim, IsQuoted;
  }

  lemma TrimPrinted(s: string)
    requires s != "" && !IsSpace(s[0])
    ensures Trim(s) == TrimEnd(s)
  {}

  lemma FirstEquals(key: string, t: string, rest: string)
    requires '=' !in key && t == key + "=" + rest
    ensures '=' in t && IndexOf(t, '=') == |key| && t[..|key|] == key && t[|key| + 1..] == rest
  {
    assert t[|key|] == '=';
    assert forall k :: 0 <= k < |key| ==> t[k] == key[k];
    var i := IndexOf(t, '=');
    assert forall k :: 0 <= k < i ==> t[..i][k] == t[k];
  }

  /** Which values survive: without quotes and newlines, those `trim` leaves alone; with
      them, those that have only single quotes, no backslash and no line terminator. */
  predicate Faithful(value: string) {
    if NeedsQuotes(value) then NoTerminator(value) && forall i :: 0 <= i < |value| ==> !NeedsEscape(value[i])
    else Trimmed(value)
  }

  lemma PlainValue(v: string)
    requires !NeedsQuotes(v)
    ensures var raw := Trim(TrimEnd(v));
            Unquoted(raw) == v <==> Trimmed(v)
  {
    var raw := Trim(TrimEnd(v));
    TrimChars(TrimEnd(v));
    assert forall c :: c in raw ==> c in v;
    assert raw != "" ==> raw[0] in raw;
    TrimExact(TrimEnd(v));
    if Trimmed(v) {
      TrimEndShort(v);
      assert TrimEnd(v) == v;
    }
  }

  lemma QuotedValue(v: string)
    requires NeedsQuotes(v)
    ensures var raw := Trim(TrimEnd("\"" + Escaped(v) + "\""));
            Unquoted(raw) == v <==> Faithful(v)
  {
    var e := Escape(v);
    EscapedIsEscape(v);
    EscapeExact(v);
    var q := "\"" + e + "\"";
    assert q[0] == '"' && q[|q| - 1] == '"';
    TrimEndShort(q);
    assert TrimEnd(q) == q;
    TrimExact(q);
    assert q[1..|q| - 1] == e;
  }

  /** A printed entry parses back exactly when its label is not empty and its value is
      one that survives. */
  lemma LineRoundTrip(casing: Casing, e: Entry)
    requires UpperCases(casing)
    ensures ParseLine(PrintedLine(casing, e)) == Some(Entry(ToEnvKey(casing, e.key), e.value))
         <==> e.key != "" && Faithful(e.value)
  {
    hide ToEnvKey, Escaped, IsQuoted, Faithful, ParseLine, TrimEnd, Trim, IsUpperOrDigit;
    KeyCharacters(casing, e.key);
    PrintedParts(ToEnvKey(casing, e.key), QuoteEnvValue(e.value));
    if NeedsQuotes(e.value) {
      QuotedValue(e.value);
    } else {
      PlainValue(e.value);
      PlainFaithful(e.value);
    }
  }

  lemma PlainFaithful(v: string)
    requires !NeedsQuotes(v)
    ensures Faithful(v) <==> Trimmed(v)
  {}

  lemma NotFaithful(v: string, i: nat)
    requires i < |v| && NeedsEscape(v[i]) && NeedsQuotes(v)
    ensures !Faithful(v)
  {}

  /** Values that do not survive: a double quote, a newline, and a backslash beside a quote
      are escaped but not unescaped. */
  lemma EscapesAreLost(casing: Casing, key: string)
    requires UpperCases(casing)
    ensures ParseLine(PrintedLine(casing, Entry(key, "a\"b"))) != Some(Entry(ToEnvKey(casing, key), "a\"b"))
    ensures ParseLine(PrintedLine(casing, Entry(key, "a\nb"))) != Some(Entry(ToEnvKey(casing, key), "a\nb"))
    ensures ParseLine(PrintedLine(casing, Entry(key, "'\\"))) != Some(Entry(ToEnvKey(casing, key), "'\\"))
  {
    hide ParseLine, PrintedLine, ToEnvKey, Faithful;
    LineRoundTrip(casing, Entry(key, "a\"b"));
    LineRoundTrip(casing, Entry(key, "a\nb"));
    LineRoundTrip(casing, Entry(key, "'\\"));
    assert "a\"b"[1] == '"' && "a\nb"[1] == '\n' && "'\\"[0] == '\'';
    NotFaithful("a\"b", 1);
    NotFaithful("a\nb", 1);
    NotFaithful("'\\", 1);
  }

  lemma PrintedNewlineFree(casing: Casing, e: Entry)
    requires UpperCases(casing)
    ensures NewlineFree(PrintedLine(casing, e))
  {
    KeyCharacters(casing, e.key);
    EscapedIsEscape(e.value);
    EscapeExact(e.value);
  }

  // ---- any line ------------------------------------------------------------------------

  /** A blank line, a line whose first character is `#`, and a line without `=` say nothing,
      with whatever white space around them. */
  lemma SkippedLine(pre: string, mid: string, post: string)
    requires AllSpace(pre) && AllSpace(post) && Trimmed(mid)
    requires mid == "" || mid[0] == '#' || '=' !in mid
    ensures ParseLine(pre + mid + post) == None
  {
    hide Trim;
    TrimIs(pre, mid, post);
  }

  /** Any other line: the key is what stands before the first `=`, the value what follows,
      both without the white space around them; without a key the line says nothing. */
  lemma EntryLine(a: string, key: string, b: string, c: string, raw: string, d: string)
    requires AllSpace(a) && AllSpace(b) && AllSpace(c) && AllSpace(d)
    requires Trimmed(key) && Trimmed(raw) && '=' !in key && (key != "" ==> key[0] != '#')
    ensures ParseLine(a + key + b + "=" + c + raw + d) == if key == "" then None else Some(Entry(key, Unquoted(raw)))
  {
    hide Trim, IsSpace, Unquoted, ParseLine, Trimmed, AllSpace;
    SpaceConcat(a, b);
    SpaceConcat(c, d);
    Regroup(a, key, b, c, raw, d);
    KeyPart(key, b);
    ValuePart(c, raw);
    var front, l := if key == "" then a + b else a, if key == "" then "" else key + b;
    var back, r := if raw == "" then c + d else d, if raw == "" then "" else c + raw;
    SplitLine(front, l, r, back);
  }

  lemma SpaceConcat(a: string, b: string)
    requires AllSpace(a) && AllSpace(b)
    ensures AllSpace(a + b)
  {}

  lemma Regroup(a: string, key: string, b: string, c: string, raw: string, d: string)
    ensures a + key + b + "=" + c + raw + d
         == (if key == "" then a + b else a) + ((if key == "" then "" else key + b) + "="
            + (if raw == "" then "" else c + raw)) + (if raw == "" then c + d else d)
  {
    assert key == "" ==> a + key + b == a + b;
    assert raw == "" ==> c + raw + d == c + d;
  }

  lemma KeyPart(key: string, b: string)
    requires AllSpace(b) && Trimmed(key) && '=' !in key && (key != "" ==> key[0] != '#')
    ensures var l := if key == "" then "" else key + b;
            Trim(l) == key && '=' !in l && (l == "" || (!IsSpace(l[0]) && l[0] != '#'))
  {
    hide Trim, IsSpace;
    NoEquals(b);
    TrimIs("", key, if key == "" then "" else b);
    assert "" + key + b == key + b && "" + "" + "" == "";
  }

  lemma ValuePart(c: string, raw: string)
    requires AllSpace(c) && Trimmed(raw)
    ensures var r := if raw == "" then "" else c + raw;
            Trim(r) == raw && (r == "" || !IsSpace(r[|r| - 1]))
  {
    hide Trim, IsSpace;
    TrimIs(if raw == "" then "" else c, raw, "");
    assert c + raw + "" == c + raw && "" + "" + "" == "";
  }

  lemma SplitLine(front: string, l: string, r: string, back: string)
    requires AllSpace(front) && AllSpace(back) && '=' !in l
    requires l == "" || (!IsSpace(l[0]) && l[0] != '#')
    requires r == "" || !IsSpace(r[|r| - 1])
    ensures ParseLine(front + (l + "=" + r) + back)
         == if Trim(l) == "" then None else Some(Entry(Trim(l), Unquoted(Trim(r))))
  {
    hide Trim, IsSpace, IsQuoted;
    var mid := l + "=" + r;
    EqualsTrimmed(l, r);
    TrimIs(front, mid, back);
    FirstEquals(l, mid, r);
    assert mid[0] == if l == "" then '=' else l[0];
  }

  lemma NoEquals(s: string)
    requires AllSpace(s)
    ensures '=' !in s
  {
    assert !IsSpace('=');
  }

  lemma EqualsTrimmed(l: string, r: string)
    requires l == "" || !IsSpace(l[0])
    requires r == "" || !IsSpace(r[|r| - 1])
    ensures Trimmed(l + "=" + r)
  {
    var m := l + "=" + r;
    assert m[0] == if l == "" then '=' else l[0];
    assert m[|m| - 1] == if r == "" then '=' else r[|r| - 1];
  }

  /** Quotes around a text on one line come off; nothing else does. */
  lemma QuotesComeOff(q: char, v: string)
    requires NoTerminator(v)
    ensures Unquoted([q] + v + [q]) == if q == '"' || q == '\'' then v else [q] + v + [q]
  {
    var raw := [q] + v + [q];
    assert raw[1..|raw| - 1] == v;
  }

  /** Quotes that do not match stay. */
  lemma OtherQuotesStay(raw: string)
    requires |raw| < 2 || raw[0] != raw[|raw| - 1] || (raw[0] != '"' && raw[0] != '\'')
    ensures Unquoted(raw) == raw
  {}

  // ---- names ---------------------------------------------------------------------------

  /** The name printed for a label: the environment name if the label has a letter or digit;
      otherwise as many underscores as the upper-cased label has characters. */
  lemma PrintedName(casing: Casing, name: string)
    requires UpperCases(casing)
    ensures var upper := Cased(casing, name);
            if exists i :: 0 <= i < |upper| && IsWordChar(upper[i])
            then ToEnvKey(casing, name) == EnvName(upper)
            else |ToEnvKey(casing, name)| == |upper|
                 && forall i :: 0 <= i < |upper| ==> ToEnvKey(casing, name)[i] == '_'
  {
    var upper := Cased(casing, name);
    EnvNameLegal(upper);
    if forall i :: 0 <= i < |upper| ==> !IsWordChar(upper[i]) {
      CasedIsUpper(casing, name);
      JunkOnly(upper);
    }
  }

  lemma {:induction false} JunkOnly(s: string)
    requires forall i :: 0 <= i < |s| ==> !IsWordChar(s[i])
    ensures forall i :: 0 <= i < |s| ==> MapJunk(s)[i] == '_'
  {
    if s != "" {
      assert !IsWordChar(s[0]);
      assert !IsUpperOrDigit(s[0]);
      JunkOnly(s[1..]);
    }
  }

  // ---- whole files ---------------------------------------------------------------------

  function Normalized(casing: Casing, entries: seq<Entry>): (r: seq<Entry>)
    ensures |r| == |entries|
  {
    seq(|entries|, i requires 0 <= i < |entries| => Entry(ToEnvKey(casing, entries[i].key), entries[i].value))
  }

  lemma {:induction false} ParseConcat(a: seq<string>, b: seq<string>)
    ensures ParseLines(a + b) == ParseLines(a) + ParseLines(b)
  {
    hide ParseLine;
    if a == [] {
      assert a + b == b;
    } else {
      ParseConcat(a[1..], b);
      assert (a + b)[1..] == a[1..] + b;
      Associative(Listed(ParseLine(a[0])), ParseLines(a[1..]), ParseLines(b));
    }
  }

  lemma {:induction false} ParseAligned(lines: seq<string>, target: seq<Entry>)
    requires |target| == |lines|
    ensures ParseLines(lines) == target <==> forall i :: 0 <= i < |lines| ==> ParseLine(lines[i]) == Some(target[i])
  {
    hide ParseLine;
    if lines != [] {
      ParseAligned(lines[1..], target[1..]);
      var head := ParseLine(lines[0]);
      if head.Some? {
        assert ParseLines(lines) == [head.value] + ParseLines(lines[1..]);
        assert target == [target[0]] + target[1..];
        assert ParseLines(lines)[1..] == ParseLines(lines[1..]);
      } else {
        assert |ParseLines(lines)| < |lines|;
      }
      assert forall i :: 0 < i < |lines| ==> lines[i] == lines[1..][i - 1] && target[i] == target[1..][i - 1];
      assert forall i :: 0 <= i < |lines| - 1 ==> lines[1..][i] == lines[i + 1] && target[1..][i] == target[i + 1];
    }
  }

  /** Parsing what was printed gives back the entries, with normalized names, exactly when
      no label is empty and every value is one that survives. */
  lemma RoundTrip(casing: Casing, entries: seq<Entry>)
    requires UpperCases(casing)
    ensures ParseEnvFile(Unlines(PrintedLines(casing, entries))) == Normalized(casing, entries)
       <==> forall i :: 0 <= i < |entries| ==> entries[i].key != "" && Faithful(entries[i].value)
  {
    hide PrintedLine, Faithful, ParseLine, ToEnvKey;
    var lines := PrintedLines(casing, entries);
    forall i | 0 <= i < |entries|
      ensures NewlineFree(lines[i])
      ensures ParseLine(lines[i]) == Some(Normalized(casing, entries)[i])
           <==> entries[i].key != "" && Faithful(entries[i].value)
    {
      PrintedNewlineFree(casing, entries[i]);
      LineRoundTrip(casing, entries[i]);
    }
    SplitUnique(lines, "");
    assert Unlines(lines) + "" == Unlines(lines);
    assert Split(Unlines(lines)) == lines + [""];
    ParseConcat(lines, [""]);
    BlankLine();
    assert ParseLines([""]) == [] by { assert [""][1..] == []; }
    assert ParseLines(lines) + [] == ParseLines(lines);
    ParseAligned(lines, Normalized(casing, entries));
  }

  lemma BlankLine()
    ensures ParseLine("") == None
  {}
}
