/**
 Comparing the audit sink with the database: rows are reduced to content keys, and the
 keys the sink has more often than the database are reported.
 */
module Divergence {
  import opened Basics

  // ---- content keys -----------------------------------------------------------------

  datatype AuditIdentity = AuditIdentity(
    organizationId: Option<string>, userId: Option<string>, agentId: Option<string>, itemId: Option<string>,
    profileId: Option<string>, eventType: Option<string>, result: Option<string>, deliveryMode: Option<string>,
    field: Option<string>)

  function Fields(row: AuditIdentity): seq<Option<string>> {
    [row.organizationId, row.userId, row.agentId, row.itemId, row.profileId, row.eventType, row.result,
     row.deliveryMode, row.field]
  }

  function HexDigit(n: nat): char
    requires n < 16
  {
    if n < 10 then ('0' as int + n) as char else ('a' as int + n - 10) as char
  }

  /** One character of a JSON string. */
  function JsonChar(c: char): (s: string)
    ensures s != "" && s[0] != '"'
  {
    if c == '"' then "\\\"" else if c == '\\' then "\\\\"
    else if c == '\U{08}' then "\\b" else if c == '\t' then "\\t" else if c == '\n' then "\\n"
    else if c == '\U{0C}' then "\\f" else if c == '\r' then "\\r"
    else if c < ' ' then ['\\', 'u', '0', '0', HexDigit(c as int / 16), HexDigit(c as int % 16)]
    else [c]
  }

  function JsonBody(s: string): string {
    if s == "" then "" else JsonChar(s[0]) + JsonBody(s[1..])
  }

  /** `JSON.stringify` of a string or null. */
  function JsonElement(f: Option<string>): string {
    match f
    case None => "null"
    case Some(s) => "\"" + (JsonBody(s) + "\"")
  }

  function JsonRest(fs: seq<Option<string>>): string {
    if fs == [] then "]" else "," + (JsonElement(fs[0]) + JsonRest(fs[1..]))
  }

  /** `JSON.stringify` of an array of them. */
  function JsonArray(fs: seq<Option<string>>): string {
    if fs == [] then "[]" else "[" + (JsonElement(fs[0]) + JsonRest(fs[1..]))
  }

  function IdentityKey(row: AuditIdentity): string {
    JsonArray(Fields(row))
  }

  /** The key is the JSON array of the nine columns in this order, null where a column is. */
  lemma KeySpelled(row: AuditIdentity)
    ensures IdentityKey(row)
         == "[" + (JsonElement(row.organizationId) + ("," + (JsonElement(row.userId) + ("," + (JsonElement(row.agentId)
            + ("," + (JsonElement(row.itemId) + ("," + (JsonElement(row.profileId) + ("," + (JsonElement(row.eventType)
            + ("," + (JsonElement(row.result) + ("," + (JsonElement(row.deliveryMode) + ("," + (JsonElement(row.field)
            + "]")))))))))))))))))
  {
    hide JsonElement, JsonRest;
    var fs := Fields(row);
    RestCons(fs[8..]);
    RestCons(fs[7..]);
    RestCons(fs[6..]);
    RestCons(fs[5..]);
    RestCons(fs[4..]);
    RestCons(fs[3..]);
    RestCons(fs[2..]);
    RestCons(fs[1..]);
    RestCons([]);
    assert fs[8..][1..] == [] && fs[7..][1..] == fs[8..] && fs[6..][1..] == fs[7..] && fs[5..][1..] == fs[6..];
    assert fs[4..][1..] == fs[5..] && fs[3..][1..] == fs[4..] && fs[2..][1..] == fs[3..] && fs[1..][1..] == fs[2..];
  }

  /** A column without quotes, backslashes and control characters is itself between quotes. */
  lemma {:induction false} PlainBody(s: string)
    requires forall i :: 0 <= i < |s| ==> s[i] >= ' ' && s[i] != '"' && s[i] != '\\'
    ensures JsonBody(s) == s && JsonElement(Some(s)) == "\"" + (s + "\"")
  {
    if s != "" {
      PlainBody(s[1..]);
      assert s == [s[0]] + s[1..];
    }
  }

  /** The escapes of a JSON string (section 7 of RFC 8259), one character at a time: seven
      have a letter of their own, the other control characters two hexadecimal digits. */
  lemma EscapesSpelled(c: char, i: nat)
    requires i < 7
    ensures JsonBody(["\"\\\U{08}\t\n\U{0C}\r"[i]]) == ['\\', "\"\\btnfr"[i]]
    ensures c < ' ' && c !in "\U{08}\t\n\U{0C}\r" ==>
              JsonBody([c]) == "\\u00" + ["01"[c as int / 16], "0123456789abcdef"[c as int % 16]]
    ensures c >= ' ' && c !in "\"\\" ==> JsonBody([c]) == [c]
  {
    BodyOfOne("\"\\\U{08}\t\n\U{0C}\r"[i]);
    BodyOfOne(c);
  }

  lemma BodyOfOne(c: char)
    ensures JsonBody([c]) == JsonChar(c)
  {
    assert [c][1..] == "";
  }

  lemma {:induction false} BodyConcat(s: string, t: string)
    ensures JsonBody(s + t) == JsonBody(s) + JsonBody(t)
  {
    hide JsonChar;
    if s == "" {
      assert s + t == t;
    } else {
      BodyConcat(s[1..], t);
      assert (s + t)[1..] == s[1..] + t;
    }
  }

  lemma RestCons(fs: seq<Option<string>>)
    ensures JsonRest(fs) == if fs == [] then "]" else "," + (JsonElement(fs[0]) + JsonRest(fs[1..]))
  {}

  /** Escaped characters are told apart by their prefix. */
  lemma JsonCharUnique(c: char, x: string, d: char, y: string)
    requires JsonChar(c) + x == JsonChar(d) + y
    ensures c == d && x == y
  {
    var s, t := JsonChar(c) + x, JsonChar(d) + y;
    var a, b := JsonChar(c), JsonChar(d);
    assert s[0] == a[0] && t[0] == b[0];
    if a[0] == '\\' {
      assert s[1] == a[1] && t[1] == b[1];
      if a[1] == 'u' {
        assert s[4] == a[4] && s[5] == a[5] && t[4] == b[4] && t[5] == b[5];
        HexUnique(c, d);
      }
    }
    assert c == d;
    assert x == s[|a|..] && y == t[|b|..];
  }

  lemma HexUnique(c: char, d: char)
    requires c < ' ' && d < ' '
    requires HexDigit(c as int / 16) == HexDigit(d as int / 16) && HexDigit(c as int % 16) == HexDigit(d as int % 16)
    ensures c == d
  {
    var p, q := c as int, d as int;
    assert p / 16 == q / 16 && p % 16 == q % 16;
  }

  lemma {:induction false} JsonBodyUnique(s: string, x: string, t: string, y: string)
    requires JsonBody(s) + ("\"" + x) == JsonBody(t) + ("\"" + y)
    ensures s == t && x == y
  {
    var u, v := JsonBody(s) + ("\"" + x), JsonBody(t) + ("\"" + y);
    BodyHead(s, x);
    BodyHead(t, y);
    if s == "" {
      assert u[1..] == x && v[1..] == y;
    } else {
      JsonCharUnique(s[0], JsonBody(s[1..]) + ("\"" + x), t[0], JsonBody(t[1..]) + ("\"" + y));
      JsonBodyUnique(s[1..], x, t[1..], y);
      assert s == [s[0]] + s[1..] && t == [t[0]] + t[1..];
    }
  }

  lemma BodyHead(s: string, x: string)
    ensures var u := JsonBody(s) + ("\"" + x);
            u[0] == '"' <==> s == ""
    ensures s != "" ==> JsonBody(s) + ("\"" + x) == JsonChar(s[0]) + (JsonBody(s[1..]) + ("\"" + x))
  {}

  lemma JsonElementUnique(f: Option<string>, x: string, g: Option<string>, y: string)
    requires JsonElement(f) + x == JsonElement(g) + y
    ensures f == g && x == y
  {
    hide JsonBody;
    var u, v := JsonElement(f) + x, JsonElement(g) + y;
    assert u[0] == (if f.None? then 'n' else '"') && v[0] == (if g.None? then 'n' else '"');
    if f.None? {
      assert u[4..] == x && v[4..] == y;
    } else {
      Quoted(JsonBody(f.value), x);
      Quoted(JsonBody(g.value), y);
      JsonBodyUnique(f.value, x, g.value, y);
    }
  }

  lemma Quoted(body: string, x: string)
    ensures (("\"" + (body + "\"")) + x)[1..] == body + ("\"" + x)
  {}

  lemma {:induction false} JsonRestUnique(fs: seq<Option<string>>, gs: seq<Option<string>>)
    requires JsonRest(fs) == JsonRest(gs)
    ensures fs == gs
  {
    hide JsonElement;
    assert JsonRest(fs)[0] == (if fs == [] then ']' else ',');
    assert JsonRest(gs)[0] == (if gs == [] then ']' else ',');
    if fs != [] {
      assert JsonRest(fs)[1..] == JsonElement(fs[0]) + JsonRest(fs[1..]);
      assert JsonRest(gs)[1..] == JsonElement(gs[0]) + JsonRest(gs[1..]);
      JsonElementUnique(fs[0], JsonRest(fs[1..]), gs[0], JsonRest(gs[1..]));
      JsonRestUnique(fs[1..], gs[1..]);
      assert fs == [fs[0]] + fs[1..] && gs == [gs[0]] + gs[1..];
    }
  }

  /** Rows with the same key are the same rows: separators and quotes inside values do
      not collide, and null differs from every string. */
  lemma IdentityKeyInjective(a: AuditIdentity, b: AuditIdentity)
    requires IdentityKey(a) == IdentityKey(b)
    ensures a == b
  {
    hide JsonElement, JsonRest;
    var fs, gs := Fields(a), Fields(b);
    assert IdentityKey(a)[1..] == JsonElement(fs[0]) + JsonRest(fs[1..]);
    assert IdentityKey(b)[1..] == JsonElement(gs[0]) + JsonRest(gs[1..]);
    JsonElementUnique(fs[0], JsonRest(fs[1..]), gs[0], JsonRest(gs[1..]));
    JsonRestUnique(fs[1..], gs[1..]);
    assert fs == [fs[0]] + fs[1..] && gs == [gs[0]] + gs[1..];
    assert forall i :: 0 <= i < 9 ==> fs[i] == gs[i];
  }

  // ---- the comparison ------------------------------------------------------------------

  datatype Deficit = Deficit(key: string, deficit: nat)

  ghost predicate CountsOf(counts: map<string, nat>, keys: multiset<string>) {
    && (forall k :: k in keys <==> k in counts)
    && (forall k :: k in counts ==> counts[k] == keys[k])
  }

  ghost predicate Distinct(order: seq<string>) {
    forall i, j :: 0 <= i < j < |order| ==> order[i] != order[j]
  }

  /** Counting occurrences; `order` is the map's iteration order. */
  method Multiset(keys: seq<string>) returns (counts: map<string, nat>, order: seq<string>)
    ensures CountsOf(counts, multiset(keys))
    ensures Distinct(order) && forall k :: k in order <==> k in counts
  {
    counts, order := map[], [];
    for i := 0 to |keys|
      invariant CountsOf(counts, multiset(keys[..i]))
      invariant Distinct(order) && forall k :: k in order <==> k in counts
    {
      assert keys[..i + 1] == keys[..i] + [keys[i]];
      var key := keys[i];
      if key !in counts {
        order := order + [key];
      }
      counts := counts[key := (if key in counts then counts[key] else 0) + 1];
    }
    assert keys[..|keys|] == keys;
  }

  /** Each of these keys that the sink has more often than the database, once, with the
      difference. */
  ghost predicate ReportsOn(r: seq<Deficit>, db: multiset<string>, sink: multiset<string>, keys: seq<string>) {
    && (forall i :: 0 <= i < |r| ==>
          r[i].deficit > 0 && db[r[i].key] + r[i].deficit == sink[r[i].key] && r[i].key in keys)
    && (forall i, j :: 0 <= i < j < |r| ==> r[i].key != r[j].key)
    && (forall k :: k in keys && sink[k] > db[k] ==> exists i :: 0 <= i < |r| && r[i].key == k)
  }

  ghost predicate Reports(r: seq<Deficit>, db: multiset<string>, sink: multiset<string>) {
    && (forall i :: 0 <= i < |r| ==> r[i].deficit > 0 && db[r[i].key] + r[i].deficit == sink[r[i].key])
    && (forall i, j :: 0 <= i < j < |r| ==> r[i].key != r[j].key)
    && (forall k :: sink[k] > db[k] ==> exists i :: 0 <= i < |r| && r[i].key == k)
  }

  lemma ReportKey(r: seq<Deficit>, db: multiset<string>, sink: multiset<string>, keys: seq<string>, key: string)
    requires ReportsOn(r, db, sink, keys) && key !in keys
    ensures sink[key] > db[key] ==> ReportsOn(r + [Deficit(key, sink[key] - db[key])], db, sink, keys + [key])
    ensures sink[key] <= db[key] ==> ReportsOn(r, db, sink, keys + [key])
  {
    if sink[key] > db[key] {
      var q := r + [Deficit(key, sink[key] - db[key])];
      assert q[|r|].key == key;
      forall k | k in keys + [key] && sink[k] > db[k]
        ensures exists n :: 0 <= n < |q| && q[n].key == k
      {
        if k != key {
          var n :| 0 <= n < |r| && r[n].key == k;
          assert q[n].key == k;
        }
      }
    }
  }

  method FindDivergences(dbKeys: seq<string>, sinkKeys: seq<string>) returns (r: seq<Deficit>)
    ensures Reports(r, multiset(dbKeys), multiset(sinkKeys))
  {
    hide ReportsOn;
    ghost var db, sink := multiset(dbKeys), multiset(sinkKeys);
    var dbCounts, _ := Multiset(dbKeys);
    var sinkCounts, order := Multiset(sinkKeys);
    r := [];
    NothingReported(db, sink, order[..0]);
    for i := 0 to |order|
      invariant ReportsOn(r, db, sink, order[..i])
    {
      var key := order[i];
      assert order[..i + 1] == order[..i] + [key] && key !in order[..i];
      ReportKey(r, db, sink, order[..i], key);
      var deficit: int := sinkCounts[key] as int - (if key in dbCounts then dbCounts[key] else 0);
      if deficit > 0 {
        r := r + [Deficit(key, deficit)];
      }
    }
    assert order[..|order|] == order;
    ReportsAll(r, db, sink, order);
  }

  lemma NothingReported(db: multiset<string>, sink: multiset<string>, keys: seq<string>)
    requires keys == []
    ensures ReportsOn([], db, sink, keys)
  {}

  lemma ReportsAll(r: seq<Deficit>, db: multiset<string>, sink: multiset<string>, keys: seq<string>)
    requires ReportsOn(r, db, sink, keys) && forall k :: k in sink ==> k in keys
    ensures Reports(r, db, sink)
  {
    forall k | sink[k] > db[k]
      ensures exists i :: 0 <= i < |r| && r[i].key == k
    {
      assert k in sink;
    }
  }

  function Total(r: seq<Deficit>): nat {
    if r == [] then 0 else Total(r[..|r| - 1]) + r[|r| - 1].deficit
  }

  /** The report lists this multiset. */
  ghost predicate Lists(r: seq<Deficit>, diff: multiset<string>) {
    && (forall i :: 0 <= i < |r| ==> diff[r[i].key] == r[i].deficit > 0)
    && (forall i, j :: 0 <= i < j < |r| ==> r[i].key != r[j].key)
    && (forall k :: k in diff ==> exists i :: 0 <= i < |r| && r[i].key == k)
  }

  lemma ReportsDifference(r: seq<Deficit>, db: multiset<string>, sink: multiset<string>)
    requires Reports(r, db, sink)
    ensures Lists(r, sink - db)
  {
    forall k | k in sink - db
      ensures exists i :: 0 <= i < |r| && r[i].key == k
    {
      assert sink[k] > db[k];
    }
  }

  lemma {:induction false} TotalIsSize(r: seq<Deficit>, diff: multiset<string>)
    requires Lists(r, diff)
    ensures Total(r) == |diff|
    decreases |r|
  {
    if r == [] {
      assert forall k :: k !in diff;
      assert diff == multiset{};
    } else {
      var n := |r| - 1;
      var rest := diff[r[n].key := 0];
      forall k | k in rest
        ensures exists i :: 0 <= i < |r[..n]| && r[..n][i].key == k
      {
        assert k in diff;
        var i :| 0 <= i < |r| && r[i].key == k;
        assert r[..n][i].key == k;
      }
      assert Lists(r[..n], rest);
      TotalIsSize(r[..n], rest);
    }
  }

  /** The deficits add up to the size of the multiset difference, and nothing is reported
      exactly when the sink is contained in the database. */
  lemma DivergencesExact(r: seq<Deficit>, db: multiset<string>, sink: multiset<string>)
    requires Reports(r, db, sink)
    ensures Total(r) == |sink - db|
    ensures r == [] <==> sink <= db
  {
    ReportsDifference(r, db, sink);
    TotalIsSize(r, sink - db);
    if r != [] {
      assert sink[r[0].key] > db[r[0].key];
    } else {
      forall k
        ensures sink[k] <= db[k]
      {}
    }
  }

  /** Removing rows from a database that matches the sink raises the total by exactly the
      number of rows removed. */
  lemma RemovalDetected(r: seq<Deficit>, db: multiset<string>, removed: multiset<string>)
    requires Reports(r, db, db + removed)
    ensures Total(r) == |removed|
  {
    DivergencesExact(r, db, db + removed);
    assert (db + removed) - db == removed;
  }

  /** The report does not depend on the order of either list, except in its own order. */
  lemma OrderIrrelevant(r: seq<Deficit>, q: seq<Deficit>, db: multiset<string>, sink: multiset<string>)
    requires Reports(r, db, sink) && Reports(q, db, sink)
    ensures multiset(r) == multiset(q)
  {
    forall d
      ensures multiset(r)[d] == multiset(q)[d]
    {
      OncePerDeficit(r, db, sink, d);
      OncePerDeficit(q, db, sink, d);
    }
  }

  lemma OncePerDeficit(r: seq<Deficit>, db: multiset<string>, sink: multiset<string>, d: Deficit)
    requires Reports(r, db, sink)
    ensures multiset(r)[d] == if d.deficit > 0 && db[d.key] + d.deficit == sink[d.key] then 1 else 0
  {
    if d.deficit > 0 && db[d.key] + d.deficit == sink[d.key] {
      var i :| 0 <= i < |r| && r[i].key == d.key;
      assert r[i] == d;
      OccursOnce(r, i);
    } else {
      assert d !in r;
      assert d !in multiset(r);
    }
  }
}
