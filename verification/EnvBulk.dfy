/**
 The bulk environment builder: which batches of items it accepts, and the map it
 builds from an accepted one.
 */
module EnvBulk {
  import opened Basics
  import opened EnvKey
  import opened Text

  const BULK_ITEMS_MAX: nat := 256

  /** Names that would change what the child process loads or runs. */
  const RESERVED_ENV_KEYS := {
    "PATH", "LD_PRELOAD", "LD_LIBRARY_PATH", "LD_AUDIT",
    "DYLD_INSERT_LIBRARIES", "DYLD_LIBRARY_PATH", "DYLD_FORCE_FLAT_NAMESPACE",
    "NODE_OPTIONS", "BUN_INSTALL", "BUN_CONFIG_REGISTRY", "PYTHONPATH", "PYTHONSTARTUP",
    "HOME", "USER", "SHELL", "NODE_PATH", "NODE_EXTRA_CA_CERTS", "SSL_CERT_FILE", "SSL_CERT_DIR",
    "HTTP_PROXY", "HTTPS_PROXY", "ALL_PROXY", "NO_PROXY", "BASH_ENV", "ENV", "IFS"}

  predicate Reserved(key: string) {
    key in RESERVED_ENV_KEYS
  }

  datatype StorageMode = ZeroKnowledge | ServerManaged | Unknown

  /** A field of a payload; None is a value that is not a string. */
  datatype Field = Field(name: string, text: Option<string>)

  /** A batch entry. The payload is what decryption gives, or what the server sent; None
      is a decryption that throws. */
  datatype BulkItem = BulkItem(itemId: string, itemLabel: string, mode: StorageMode, sealedParts: bool,
                               payload: Option<seq<Field>>)

  datatype BulkError =
    | TooMany
    | Malformed(item: string)
    | UnknownMode(item: string)
    | MissingParts(item: string)
    | DecryptFailed(item: string)
    | BadLabel(item: string)
    | ReservedKey(item: string)
    | Collision(first: string, second: string)

  function StringFields(fields: seq<Field>): seq<Field> {
    if fields == [] then []
    else (if fields[0].text.Some? then [fields[0]] else []) + StringFields(fields[1..])
  }

  predicate WellFormed(item: BulkItem) {
    && item.itemId != "" && item.itemLabel != ""
    && !item.mode.Unknown?
    && (item.mode.ZeroKnowledge? ==> item.sealedParts)
    && item.payload.Some?
  }

  /** Exactly one string field: the items that take part. */
  predicate Participates(item: BulkItem) {
    item.payload.Some? && |StringFields(item.payload.value)| == 1
  }

  function Key(casing: Casing, item: BulkItem): string {
    EnvName(Cased(casing, item.itemLabel))
  }

  function Value(item: BulkItem): string
    requires Participates(item)
  {
    var f := StringFields(item.payload.value)[0];
    if f.text.Some? then f.text.value else ""
  }

  predicate GoodKey(key: string) {
    key != "" && !Reserved(key)
  }

  predicate GoodItem(casing: Casing, item: BulkItem) {
    WellFormed(item) && (Participates(item) ==> GoodKey(Key(casing, item)))
  }

  /** The names and values of the items that take part, in order. */
  function Pairs(casing: Casing, items: seq<BulkItem>): seq<(string, string)> {
    if items == [] then []
    else
      var item := items[|items| - 1];
      Pairs(casing, items[..|items| - 1]) + (if Participates(item) then [(Key(casing, item), Value(item))] else [])
  }

  ghost predicate DistinctKeys(pairs: seq<(string, string)>) {
    forall i, j :: 0 <= i < j < |pairs| ==> pairs[i].0 != pairs[j].0
  }

  /** What a batch must satisfy. */
  ghost predicate Acceptable(casing: Casing, items: seq<BulkItem>) {
    && |items| <= BULK_ITEMS_MAX
    && (forall i :: 0 <= i < |items| ==> GoodItem(casing, items[i]))
    && DistinctKeys(Pairs(casing, items))
  }

  /** The map holds exactly the pairs. */
  ghost predicate Holds(envMap: map<string, string>, pairs: seq<(string, string)>) {
    && (forall i :: 0 <= i < |pairs| ==> pairs[i].0 in envMap && envMap[pairs[i].0] == pairs[i].1)
    && (forall k :: k in envMap ==> exists i :: 0 <= i < |pairs| && pairs[i].0 == k)
  }

  /** Why an entry is rejected. */
  ghost predicate ItemError(casing: Casing, item: BulkItem, e: BulkError) {
    match e
    case Malformed(id) => id == item.itemId && (item.itemId == "" || item.itemLabel == "")
    case UnknownMode(id) => id == item.itemId && item.mode.Unknown?
    case MissingParts(id) => id == item.itemId && item.mode.ZeroKnowledge? && !item.sealedParts
    case DecryptFailed(id) => id == item.itemId && item.payload.None?
    case BadLabel(id) => id == item.itemId && Participates(item) && Key(casing, item) == ""
    case ReservedKey(id) => id == item.itemId && Participates(item) && Reserved(Key(casing, item))
    case _ => false
  }

  ghost predicate Names(casing: Casing, item: BulkItem, key: string, id: string) {
    Participates(item) && Key(casing, item) == key && item.itemId == id
  }

  /** Why a batch is rejected: it is too large, its first bad entry is bad, or two entries
      want the same name. */
  ghost predicate Explains(casing: Casing, items: seq<BulkItem>, e: BulkError) {
    match e
    case TooMany => |items| > 256
    case Collision(a, b) =>
      exists i, j, key :: 0 <= i < j < |items| && Names(casing, items[i], key, a) && Names(casing, items[j], key, b)
    case _ => exists i :: 0 <= i < |items| && ItemError(casing, items[i], e) && GoodBefore(casing, items, i)
  }

  ghost predicate GoodBefore(casing: Casing, items: seq<BulkItem>, i: nat) {
    i <= |items| && forall j :: 0 <= j < i ==> GoodItem(casing, items[j])
  }

  lemma {:induction false} StringFieldText(fields: seq<Field>)
    ensures forall i :: 0 <= i < |StringFields(fields)| ==> StringFields(fields)[i].text.Some?
  {
    if fields != [] {
      StringFieldText(fields[1..]);
    }
  }

  /** The one field of a payload that is a string, by position. */
  ghost predicate OnlyString(fields: seq<Field>, i: nat) {
    i < |fields| && fields[i].text.Some? && forall j :: 0 <= j < |fields| && j != i ==> fields[j].text.None?
  }

  lemma {:induction false} NoStrings(fields: seq<Field>)
    ensures StringFields(fields) == [] <==> forall j :: 0 <= j < |fields| ==> fields[j].text.None?
  {
    if fields != [] {
      NoStrings(fields[1..]);
      assert forall j :: 0 < j < |fields| ==> fields[j] == fields[1..][j - 1];
      assert forall j :: 0 <= j < |fields[1..]| ==> fields[1..][j] == fields[j + 1];
    }
  }

  lemma {:induction false} OneString(fields: seq<Field>, i: nat)
    requires OnlyString(fields, i)
    ensures StringFields(fields) == [fields[i]]
  {
    assert forall j :: 0 <= j < |fields[1..]| ==> fields[1..][j] == fields[j + 1];
    if i == 0 {
      NoStrings(fields[1..]);
    } else {
      OneString(fields[1..], i - 1);
    }
  }

  lemma {:induction false} StringAt(fields: seq<Field>) returns (i: nat)
    requires |StringFields(fields)| == 1
    ensures OnlyString(fields, i)
  {
    assert forall j :: 0 < j < |fields| ==> fields[j] == fields[1..][j - 1];
    if fields[0].text.Some? {
      NoStrings(fields[1..]);
      assert forall j :: 0 <= j < |fields[1..]| ==> fields[1..][j].text.None?;
      i := 0;
    } else {
      i := StringAt(fields[1..]);
      i := i + 1;
    }
  }

  /** An item takes part exactly when one field of its payload, and no other, is a string;
      it then gives that string under the name of its label. */
  lemma TakesPart(casing: Casing, item: BulkItem)
    ensures Participates(item) <==> item.payload.Some? && exists i: nat :: OnlyString(item.payload.value, i)
    ensures item.payload.Some? ==> forall i: nat :: OnlyString(item.payload.value, i) ==>
              Participates(item) && Pairs(casing, [item]) == [(EnvName(Cased(casing, item.itemLabel)),
                                                               item.payload.value[i].text.value)]
  {
    if item.payload.Some? {
      var fields := item.payload.value;
      if Participates(item) {
        var i := StringAt(fields);
      }
      forall i: nat | OnlyString(fields, i)
        ensures StringFields(fields) == [fields[i]]
      {
        OneString(fields, i);
      }
      assert [item][..0] == [];
    }
  }

  /** What an entry must satisfy, field by field. */
  lemma GoodItemIs(casing: Casing, item: BulkItem)
    ensures GoodItem(casing, item)
       <==> item.itemId != "" && item.itemLabel != ""
            && (item.mode.ServerManaged? || (item.mode.ZeroKnowledge? && item.sealedParts))
            && item.payload.Some?
            && ((exists i: nat :: OnlyString(item.payload.value, i)) ==>
                  EnvName(Cased(casing, item.itemLabel)) != ""
                  && EnvName(Cased(casing, item.itemLabel)) !in RESERVED_ENV_KEYS)
  {
    TakesPart(casing, item);
  }

  /** No batch of more than 256 entries is accepted, nor one with two equal names. */
  lemma AcceptableIs(casing: Casing, items: seq<BulkItem>)
    ensures Acceptable(casing, items)
       <==> |items| <= 256
            && (forall i :: 0 <= i < |items| ==> GoodItem(casing, items[i]))
            && (forall i, j :: 0 <= i < j < |items| && Participates(items[i]) && Participates(items[j]) ==>
                  Key(casing, items[i]) != Key(casing, items[j]))
  {
    hide GoodItem, Participates, Key;
    DistinctByItem(casing, items);
  }

  /** Where the pair of an item stands. */
  lemma {:induction false} PairOf(casing: Casing, items: seq<BulkItem>, i: nat) returns (p: nat)
    requires i < |items| && Participates(items[i])
    ensures p < |Pairs(casing, items)| && p == |Pairs(casing, items[..i])|
            && Pairs(casing, items)[p].0 == Key(casing, items[i])
  {
    p := |Pairs(casing, items[..i])|;
    PairsSnoc(casing, items, i);
    PairsPrefix(casing, items, i + 1);
  }

  lemma {:induction false} ItemOf(casing: Casing, items: seq<BulkItem>, p: nat) returns (i: nat)
    requires p < |Pairs(casing, items)|
    ensures i < |items| && Participates(items[i]) && p == |Pairs(casing, items[..i])|
            && Pairs(casing, items)[p].0 == Key(casing, items[i])
  {
    var n := |items| - 1;
    if p < |Pairs(casing, items[..n])| {
      i := ItemOf(casing, items[..n], p);
      assert items[..n][..i] == items[..i];
    } else {
      i := n;
    }
  }

  lemma {:induction false} PairsGrow(casing: Casing, items: seq<BulkItem>, i: nat, j: nat)
    requires i < j <= |items| && Participates(items[i])
    ensures |Pairs(casing, items[..i])| < |Pairs(casing, items[..j])|
    decreases j
  {
    PairsSnoc(casing, items, j - 1);
    if i < j - 1 {
      PairsGrow(casing, items, i, j - 1);
    }
  }

  lemma DistinctByItem(casing: Casing, items: seq<BulkItem>)
    ensures DistinctKeys(Pairs(casing, items))
       <==> forall i, j :: 0 <= i < j < |items| && Participates(items[i]) && Participates(items[j]) ==>
              Key(casing, items[i]) != Key(casing, items[j])
  {
    hide Participates, Key, Pairs, Value;
    var pairs := Pairs(casing, items);
    if DistinctKeys(pairs) {
      forall i, j | 0 <= i < j < |items| && Participates(items[i]) && Participates(items[j])
        ensures Key(casing, items[i]) != Key(casing, items[j])
      {
        var p := PairOf(casing, items, i);
        var q := PairOf(casing, items, j);
        PairsGrow(casing, items, i, j);
      }
    } else {
      var p, q :| 0 <= p < q < |pairs| && pairs[p].0 == pairs[q].0;
      var i := ItemOf(casing, items, p);
      var j := ItemOf(casing, items, q);
      if i > j {
        PairsGrow(casing, items, j, i);
      }
    }
  }

  lemma PairsSnoc(casing: Casing, items: seq<BulkItem>, i: nat)
    requires i < |items|
    ensures Pairs(casing, items[..i + 1])
         == Pairs(casing, items[..i]) + (if Participates(items[i])
                                           then [(Key(casing, items[i]), Value(items[i]))] else [])
  {
    assert items[..i + 1][..i] == items[..i];
  }

  lemma {:induction false} PairsPrefix(casing: Casing, items: seq<BulkItem>, i: nat)
    requires i <= |items|
    ensures Pairs(casing, items[..i]) <= Pairs(casing, items)
    decreases |items| - i
  {
    if i == |items| {
      assert items[..i] == items;
    } else {
      PairsSnoc(casing, items, i);
      PairsPrefix(casing, items, i + 1);
    }
  }

  /** The part of the loop body that looks at one entry alone: its name and value if it
      takes part. */
  method ReadItem(casing: Casing, item: BulkItem) returns (r: Result<Option<(string, string)>, BulkError>)
    requires UpperCases(casing)
    ensures r.Ok? <==> GoodItem(casing, item)
    ensures r.Err? ==> ItemError(casing, item, r.error)
    ensures r.Ok? ==> r.value == if Participates(item) then Some((Key(casing, item), Value(item))) else None
  {
    hide Reserved, EnvName;
    if item.itemId == "" || item.itemLabel == "" {
      return Err(Malformed(item.itemId));
    }
    if item.mode.Unknown? {
      return Err(UnknownMode(item.itemId));
    }
    if item.mode.ZeroKnowledge? && !item.sealedParts {
      return Err(MissingParts(item.itemId));
    }
    if item.payload.None? {
      return Err(DecryptFailed(item.itemId));
    }
    var stringFields := StringFields(item.payload.value);
    StringFieldText(item.payload.value);
    if |stringFields| != 1 {
      return Ok(None);
    }
    var envKey := EnvKey.LabelToEnvKey(casing, item.itemLabel);
    EnvNameLegal(Cased(casing, item.itemLabel));
    if envKey == "" {
      return Err(BadLabel(item.itemId));
    }
    if Reserved(envKey) {
      return Err(ReservedKey(item.itemId));
    }
    if !LegalName(envKey) {
      return Err(BadLabel(item.itemId));
    }
    r := Ok(Some((envKey, stringFields[0].text.value)));
  }

  /** `exec.envBulk` up to the spawn. */
  method BuildEnv(casing: Casing, items: seq<BulkItem>) returns (r: Result<map<string, string>, BulkError>)
    requires UpperCases(casing)
    ensures r.Ok? <==> Acceptable(casing, items)
    ensures r.Ok? ==> Holds(r.value, Pairs(casing, items)) && |r.value| == |Pairs(casing, items)|
    ensures r.Err? ==> Explains(casing, items, r.error)
  {
    hide GoodItem, Participates, Key, Value, Pairs, Holds, DistinctKeys, UpperCases, ItemError, Names;
    if |items| > BULK_ITEMS_MAX {
      return Err(TooMany);
    }
    var envMap: map<string, string> := map[];
    var envSource: map<string, string> := map[];
    NoPairs(casing, items[..0]);
    NothingHeld();
    for i := 0 to |items|
      invariant forall j :: 0 <= j < i ==> GoodItem(casing, items[j])
      invariant DistinctKeys(Pairs(casing, items[..i]))
      invariant Holds(envMap, Pairs(casing, items[..i])) && |envMap| == |Pairs(casing, items[..i])|
      invariant envSource.Keys == envMap.Keys
      invariant forall k :: k in envSource ==> exists j :: 0 <= j < i && Names(casing, items[j], k, envSource[k])
    {
      PairsSnoc(casing, items, i);
      PairsPrefix(casing, items, i + 1);
      var entry := ReadItem(casing, items[i]);
      if entry.Err? {
        NotOfBatch(casing, items[i], entry.error);
        assert GoodBefore(casing, items, i);
        return Err(entry.error);
      }
      if entry.value.None? {
        assert Pairs(casing, items[..i]) + [] == Pairs(casing, items[..i]);
        continue;
      }
      var (envKey, fieldValue) := entry.value.value;
      ghost var before := Pairs(casing, items[..i]);
      if envKey in envSource {
        Repeated(before, Pairs(casing, items), envMap, envKey);
        assert Names(casing, items[i], envKey, items[i].itemId) by { NamesItself(casing, items[i]); }
        return Err(Collision(envSource[envKey], items[i].itemId));
      }
      AddPair(envMap, before, envKey, fieldValue);
      NamesItself(casing, items[i]);
      envMap := envMap[envKey := fieldValue];
      envSource := envSource[envKey := items[i].itemId];
    }
    assert items[..|items|] == items;
    r := Ok(envMap);
  }

  lemma Repeated(before: seq<(string, string)>, pairs: seq<(string, string)>, envMap: map<string, string>, key: string)
    requires Holds(envMap, before) && key in envMap
    requires before <= pairs && |before| < |pairs| && pairs[|before|].0 == key
    ensures !DistinctKeys(pairs)
  {
    var j :| 0 <= j < |before| && before[j].0 == key;
    assert pairs[j] == before[j];
  }

  lemma NoPairs(casing: Casing, items: seq<BulkItem>)
    requires items == []
    ensures Pairs(casing, items) == []
  {}

  lemma NotOfBatch(casing: Casing, item: BulkItem, e: BulkError)
    requires ItemError(casing, item, e)
    ensures !e.TooMany? && !e.Collision?
  {}

  lemma NamesItself(casing: Casing, item: BulkItem)
    ensures Participates(item) ==> Names(casing, item, Key(casing, item), item.itemId)
  {}

  lemma NothingHeld()
    ensures Holds(map[], []) && DistinctKeys([])
  {}

  lemma AddPair(envMap: map<string, string>, pairs: seq<(string, string)>, key: string, value: string)
    requires Holds(envMap, pairs) && DistinctKeys(pairs) && key !in envMap
    ensures Holds(envMap[key := value], pairs + [(key, value)]) && DistinctKeys(pairs + [(key, value)])
  {
    var more, m := pairs + [(key, value)], envMap[key := value];
    assert more[|pairs|].0 == key;
    forall k | k in m
      ensures exists i :: 0 <= i < |more| && more[i].0 == k
    {
      if k != key {
        var i :| 0 <= i < |pairs| && pairs[i].0 == k;
        assert more[i].0 == k;
      }
    }
  }

  // ---- order does not matter -----------------------------------------------------------

  lemma {:induction false} PairsConcat(casing: Casing, a: seq<BulkItem>, b: seq<BulkItem>)
    ensures Pairs(casing, a + b) == Pairs(casing, a) + Pairs(casing, b)
  {
    if b == [] {
      assert a + b == a;
    } else {
      var n := |b| - 1;
      PairsConcat(casing, a, b[..n]);
      assert (a + b)[..|a + b| - 1] == a + b[..n];
    }
  }

  lemma Without<T>(s: seq<T>, j: nat)
    requires j < |s|
    ensures multiset(s[..j] + s[j + 1..]) == multiset(s) - multiset{s[j]}
    ensures s == s[..j] + ([s[j]] + s[j + 1..])
  {
    assert s == s[..j] + ([s[j]] + s[j + 1..]);
  }

  lemma PairsWithout(casing: Casing, items: seq<BulkItem>, j: nat)
    requires j < |items|
    ensures multiset(Pairs(casing, items))
         == multiset(Pairs(casing, [items[j]])) + multiset(Pairs(casing, items[..j] + items[j + 1..]))
  {
    hide Pairs;
    Without(items, j);
    PairsConcat(casing, items[..j], [items[j]] + items[j + 1..]);
    PairsConcat(casing, [items[j]], items[j + 1..]);
    PairsConcat(casing, items[..j], items[j + 1..]);
  }

  /** A permutation of the items permutes the pairs. */
  lemma {:induction false} PairsPermuted(casing: Casing, xs: seq<BulkItem>, ys: seq<BulkItem>)
    requires multiset(xs) == multiset(ys)
    ensures multiset(Pairs(casing, xs)) == multiset(Pairs(casing, ys))
    decreases |xs|
  {
    hide Pairs;
    assert |multiset(xs)| == |xs| && |multiset(ys)| == |ys|;
    if xs == [] {
      NoPairs(casing, xs);
      NoPairs(casing, ys);
    } else {
      assert xs[0] in multiset(ys);
      var j :| 0 <= j < |ys| && ys[j] == xs[0];
      Without(xs, 0);
      Without(ys, j);
      PairsWithout(casing, xs, 0);
      PairsWithout(casing, ys, j);
      PairsPermuted(casing, xs[..0] + xs[1..], ys[..j] + ys[j + 1..]);
    }
  }

  /** Keys are distinct exactly when no pair occurs twice and no two pairs share a key. */
  lemma DistinctAsMultiset(pairs: seq<(string, string)>)
    ensures DistinctKeys(pairs)
       <==> (forall p :: p in multiset(pairs) ==> multiset(pairs)[p] == 1)
            && (forall p, q :: p in multiset(pairs) && q in multiset(pairs) && p.0 == q.0 ==> p == q)
  {
    var m := multiset(pairs);
    if DistinctKeys(pairs) {
      forall p | p in m
        ensures m[p] == 1
      {
        var i :| 0 <= i < |pairs| && pairs[i] == p;
        OccursOnce(pairs, i);
      }
    } else {
      var i, j :| 0 <= i < j < |pairs| && pairs[i].0 == pairs[j].0;
      if pairs[i] == pairs[j] {
        assert pairs == pairs[..j] + [pairs[j]] + pairs[j + 1..];
        assert pairs[i] == pairs[..j][i];
        assert m[pairs[i]] >= 2;
      } else {
        assert pairs[i] in m && pairs[j] in m;
      }
    }
  }

  /** Acceptance and the map do not depend on the order of the items. */
  lemma PermutationInvariant(casing: Casing, xs: seq<BulkItem>, ys: seq<BulkItem>, mx: map<string, string>,
                             my: map<string, string>)
    requires multiset(xs) == multiset(ys)
    ensures Acceptable(casing, xs) <==> Acceptable(casing, ys)
    ensures Acceptable(casing, xs) && Holds(mx, Pairs(casing, xs)) && Holds(my, Pairs(casing, ys)) ==> mx == my
  {
    if Acceptable(casing, xs) {
      AcceptablePermuted(casing, xs, ys);
    }
    if Acceptable(casing, ys) {
      AcceptablePermuted(casing, ys, xs);
    }
    PairsPermuted(casing, xs, ys);
    if Acceptable(casing, xs) && Holds(mx, Pairs(casing, xs)) && Holds(my, Pairs(casing, ys)) {
      HeldAgree(mx, my, Pairs(casing, xs), Pairs(casing, ys));
      HeldAgree(my, mx, Pairs(casing, ys), Pairs(casing, xs));
    }
  }

  lemma AcceptablePermuted(casing: Casing, xs: seq<BulkItem>, ys: seq<BulkItem>)
    requires multiset(xs) == multiset(ys) && Acceptable(casing, xs)
    ensures Acceptable(casing, ys)
  {
    hide GoodItem, Pairs, DistinctKeys;
    PairsPermuted(casing, xs, ys);
    DistinctAsMultiset(Pairs(casing, xs));
    DistinctAsMultiset(Pairs(casing, ys));
    assert |multiset(xs)| == |xs| && |multiset(ys)| == |ys|;
    SameMembers(casing, xs, ys);
  }

  lemma SameMembers(casing: Casing, xs: seq<BulkItem>, ys: seq<BulkItem>)
    requires multiset(xs) == multiset(ys)
    ensures (forall i :: 0 <= i < |xs| ==> GoodItem(casing, xs[i])) ==>
              forall i :: 0 <= i < |ys| ==> GoodItem(casing, ys[i])
  {
    forall i | 0 <= i < |ys|
      ensures exists j :: 0 <= j < |xs| && xs[j] == ys[i]
    {
      assert ys[i] in multiset(xs);
    }
  }

  lemma HeldAgree(mx: map<string, string>, my: map<string, string>, px: seq<(string, string)>,
                  py: seq<(string, string)>)
    requires Holds(mx, px) && Holds(my, py) && multiset(px) == multiset(py)
    ensures forall k :: k in mx ==> k in my && my[k] == mx[k]
  {
    forall k | k in mx
      ensures k in my && my[k] == mx[k]
    {
      var i :| 0 <= i < |px| && px[i].0 == k;
      assert px[i] in multiset(py);
      var j :| 0 <= j < |py| && py[j] == px[i];
    }
  }
}
