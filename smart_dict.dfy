/** SmartDict: an insertion-ordered dictionary with a lower-case index
    (`casemap`) and three lookup tiers: exact key, case-folded key, and
    "leading text + trailing digits" prefix match. */
module SmartDicts {
  import opened Wrappers
  import opened Errors
  import opened Text

  /** A warning raised by `__setitem__`. */
  datatype Warning = DuplicateEntry(key: string) | CaseOnlyDuplicate(key: string, existing: string)

  /** The state of a SmartDict: the OrderedDict `od` with its key order
      `order`, and the dict `casemap` (folded key to original key) with its
      insertion order `foldOrder`. */
  datatype Dict<V> = Dict(order: seq<string>, od: map<string, V>, foldOrder: seq<string>, casemap: map<string, string>)

  predicate Distinct(s: seq<string>) {
    forall i, j :: 0 <= i < j < |s| ==> s[i] != s[j]
  }

  /** The invariant kept by every SmartDict: the orders list each key once,
      and every casemap value is a key of `od` whose lower-case form is the
      casemap key that maps to it. */
  ghost predicate WellFormed<V>(d: Dict<V>) {
    && Distinct(d.order)
    && (forall k :: k in d.order <==> k in d.od)
    && Distinct(d.foldOrder)
    && (forall f :: f in d.foldOrder <==> f in d.casemap)
    && (forall f :: f in d.casemap ==> d.casemap[f] in d.od && Lower(d.casemap[f]) == f)
  }

  function Empty<V>(): (d: Dict<V>)
    ensures WellFormed(d) && d.od == map[]
  {
    Dict([], map[], [], map[])
  }

  function Get<V>(m: map<string, V>, k: string): Option<V> {
    if k in m then Some(m[k]) else None
  }

  /** `d[key] = value`: overwrite (keeping its place) or append in `od`, and
      point `casemap[key.lower()]` at `key`. */
  function Insert<V>(d: Dict<V>, key: string, value: V): Dict<V> {
    var f := Lower(key);
    Dict(if key in d.od then d.order else d.order + [key],
         d.od[key := value],
         if f in d.casemap then d.foldOrder else d.foldOrder + [f],
         d.casemap[f := key])
  }

  /** The warning `d[key] = value` emits before it stores the entry. */
  function InsertWarning<V>(d: Dict<V>, key: string): (w: Option<Warning>)
    ensures w.None? <==> key !in d.od && Lower(key) !in d.casemap
  {
    if key in d.od then Some(DuplicateEntry(key))
    else if Lower(key) in d.casemap then Some(CaseOnlyDuplicate(key, d.casemap[Lower(key)]))
    else None
  }

  /** `s` without any occurrence of `x`. */
  function Without(s: seq<string>, x: string): (r: seq<string>)
    ensures forall y :: y in r <==> y in s && y != x
    ensures Distinct(s) ==> Distinct(r)
    ensures |r| <= |s|
  {
    if s == [] then []
    else if s[0] == x then Without(s[1..], x)
    else
      var rest := Without(s[1..], x);
      assert Distinct(s) ==> s[0] !in s[1..];
      [s[0]] + rest
  }

  /** `del d[key]`: a KeyError when `key.lower()` is not in `casemap`; the
      casemap entry is dropped only when it still maps to `key`; then a
      KeyError when `key` is not in `od`. */
  function Remove<V>(d: Dict<V>, key: string): Result<Dict<V>, Error> {
    var f := Lower(key);
    if f !in d.casemap then Err(KeyError(f))
    else if key !in d.od then Err(KeyError(key))
    else if d.casemap[f] == key then
      Ok(Dict(Without(d.order, key), d.od - {key}, Without(d.foldOrder, f), d.casemap - {f}))
    else
      Ok(Dict(Without(d.order, key), d.od - {key}, d.foldOrder, d.casemap))
  }

  predicate KeyMatches(entry: string, name: string, number: string) {
    StartsWith(entry, name) && EndsWith(entry, number)
  }

  /** The original keys, in casemap order, whose folded form starts with
      `name` and ends with `number`. */
  function MatchesIn(folds: seq<string>, casemap: map<string, string>, name: string, number: string): seq<string> {
    if folds == [] then []
    else
      (if folds[0] in casemap && KeyMatches(folds[0], name, number) then [casemap[folds[0]]] else [])
      + MatchesIn(folds[1..], casemap, name, number)
  }

  /** A folded key that does not match yields nothing. */
  lemma MatchesInSkip(folds: seq<string>, casemap: map<string, string>, name: string, number: string, rest: seq<string>)
    requires folds != [] && rest == folds[1..]
    requires !KeyMatches(folds[0], name, number)
    ensures MatchesIn(folds, casemap, name, number) == MatchesIn(rest, casemap, name, number)
  {
  }

  /** What `prefix_match_iter(key)` yields. */
  function PrefixMatches<V>(d: Dict<V>, key: string): seq<string> {
    var (name, number) := SplitKey(Lower(key));
    MatchesIn(d.foldOrder, d.casemap, name, number)
  }

  /** `prefix_match(key)`: the first key `prefix_match_iter` yields. */
  function FirstPrefixMatch<V>(d: Dict<V>, key: string): Option<string> {
    var ms := PrefixMatches(d, key);
    if ms == [] then None else Some(ms[0])
  }

  /** `d[key]`: exact key, then case-folded key, then the first prefix
      match; None stands for the KeyError. */
  function Lookup<V>(d: Dict<V>, key: string): Option<V> {
    if key in d.od then Some(d.od[key])
    else if Lower(key) in d.casemap then Get(d.od, d.casemap[Lower(key)])
    else match FirstPrefixMatch(d, key)
      case Some(k) => Get(d.od, k)
      case None => None
  }

  /** `d[key]` with its KeyError. */
  function Fetch<V>(d: Dict<V>, key: string): (r: Result<V, Error>)
    ensures r.Ok? <==> Lookup(d, key).Some?
    ensures r.Ok? ==> Lookup(d, key) == Some(r.value)
  {
    match Lookup(d, key)
    case Some(v) => Ok(v)
    case None => Err(KeyError(key))
  }

  /** `key in d`: the third tier is the truth value of the matched key, so
      an empty matched key would count as absent. */
  predicate Has<V>(d: Dict<V>, key: string) {
    || key in d.od
    || Lower(key) in d.casemap
    || (FirstPrefixMatch(d, key).Some? && FirstPrefixMatch(d, key).value != "")
  }

  /** `is_ambiguous(key)`: the raw key (not folded) is tested against casemap. */
  predicate IsAmbiguousKey<V>(d: Dict<V>, key: string) {
    key !in d.od && key !in d.casemap && |PrefixMatches(d, key)| > 1
  }

  /** The values in key order (`values()`). */
  function Values<V>(d: Dict<V>): (vs: seq<V>)
    requires WellFormed(d)
    ensures |vs| == |d.order|
    ensures forall i :: 0 <= i < |d.order| ==> vs[i] == d.od[d.order[i]]
  {
    seq(|d.order|, i requires 0 <= i < |d.order| => d.od[d.order[i]])
  }

  /** The same dictionary with `f` applied to every value: the key order and
      the casemap are untouched. */
  function MapValues<V, W>(d: Dict<V>, f: V -> W): Dict<W> {
    Dict(d.order, map k | k in d.od :: f(d.od[k]), d.foldOrder, d.casemap)
  }

  // ---------------------------------------------------------------------
  // Properties

  /** A yielded key is the casemap value of a matching folded key; every
      matching folded key yields its value. */
  lemma {:induction false} MatchesInMembers(folds: seq<string>, casemap: map<string, string>, name: string, number: string)
    ensures forall x :: x in MatchesIn(folds, casemap, name, number) <==>
      exists i :: 0 <= i < |folds| && folds[i] in casemap && casemap[folds[i]] == x && KeyMatches(folds[i], name, number)
  {
    if folds != [] {
      MatchesInMembers(folds[1..], casemap, name, number);
      forall x | (exists i :: 0 <= i < |folds| && folds[i] in casemap && casemap[folds[i]] == x && KeyMatches(folds[i], name, number))
        ensures x in MatchesIn(folds, casemap, name, number)
      {
        var i :| 0 <= i < |folds| && folds[i] in casemap && casemap[folds[i]] == x && KeyMatches(folds[i], name, number);
        if i > 0 {
          assert folds[1..][i - 1] == folds[i];
        }
      }
    }
  }

  /** The first yielded key belongs to the earliest matching folded key. */
  lemma {:induction false} MatchesInFirst(folds: seq<string>, casemap: map<string, string>, name: string, number: string)
    requires MatchesIn(folds, casemap, name, number) != []
    ensures exists i :: (0 <= i < |folds| && folds[i] in casemap && KeyMatches(folds[i], name, number)
      && MatchesIn(folds, casemap, name, number)[0] == casemap[folds[i]]
      && forall j :: 0 <= j < i ==> !(folds[j] in casemap && KeyMatches(folds[j], name, number)))
  {
    if !(folds[0] in casemap && KeyMatches(folds[0], name, number)) {
      MatchesInFirst(folds[1..], casemap, name, number);
      var i :| 0 <= i < |folds[1..]| && folds[1..][i] in casemap && KeyMatches(folds[1..][i], name, number)
        && MatchesIn(folds[1..], casemap, name, number)[0] == casemap[folds[1..][i]]
        && forall j :: 0 <= j < i ==> !(folds[1..][j] in casemap && KeyMatches(folds[1..][j], name, number));
      assert forall j :: 1 <= j < i + 1 ==> folds[j] == folds[1..][j - 1];
    }
  }

  /** Prefix matching: a key is yielded exactly when it is a stored original
      key whose lower-case form starts with the key's leading text and ends
      with its trailing digits. */
  lemma PrefixMatchesMembers<V>(d: Dict<V>, key: string, x: string)
    requires WellFormed(d)
    ensures x in PrefixMatches(d, key) <==>
      Lower(x) in d.casemap && d.casemap[Lower(x)] == x
      && KeyMatches(Lower(x), SplitKey(Lower(key)).0, SplitKey(Lower(key)).1)
  {
    var (name, number) := SplitKey(Lower(key));
    MatchesInMembers(d.foldOrder, d.casemap, name, number);
    if Lower(x) in d.casemap && d.casemap[Lower(x)] == x && KeyMatches(Lower(x), name, number) {
      var i :| 0 <= i < |d.foldOrder| && d.foldOrder[i] == Lower(x);
    }
  }

  /** Every yielded key is a key of `od`. */
  lemma PrefixMatchesStored<V>(d: Dict<V>, key: string)
    requires WellFormed(d)
    ensures forall x :: x in PrefixMatches(d, key) ==> x in d.od
  {
    var (name, number) := SplitKey(Lower(key));
    MatchesInMembers(d.foldOrder, d.casemap, name, number);
  }

  /** The three lookup tiers of `__getitem__`, in priority order. */
  lemma LookupTiers<V>(d: Dict<V>, key: string)
    requires WellFormed(d)
    ensures key in d.od ==> Lookup(d, key) == Some(d.od[key])
    ensures key !in d.od && Lower(key) in d.casemap ==>
      Lookup(d, key) == Some(d.od[d.casemap[Lower(key)]])
    ensures key !in d.od && Lower(key) !in d.casemap ==>
      (Lookup(d, key).Some? <==> PrefixMatches(d, key) != [])
      && (PrefixMatches(d, key) != [] ==> Lookup(d, key) == Some(d.od[PrefixMatches(d, key)[0]]))
  {
    PrefixMatchesStored(d, key);
  }

  /** `key in d` holds exactly when `d[key]` succeeds, for every key but
      the newline. The prefix tier yields the empty key first only when the
      matched text of the folded key is empty: for the empty key the
      casemap tier already answers, but for `"\n"` the `$` of the pattern
      matches before the newline, so `in` sees the falsy empty key while
      `d[key]` returns its value. */
  lemma HasIffLookup<V>(d: Dict<V>, key: string)
    requires WellFormed(d)
    ensures Has(d, key) ==> Lookup(d, key).Some?
    ensures key != "\n" ==> (Lookup(d, key).Some? ==> Has(d, key))
  {
    LookupTiers(d, key);
    if key !in d.od && Lower(key) !in d.casemap && FirstPrefixMatch(d, key) == Some("") {
      var (name, number) := SplitKey(Lower(key));
      PrefixMatchesMembers(d, key, "");
      assert Lower("") == "";
      assert |name| == 0 && |number| == 0;
      assert MatchedText(Lower(key)) == "";
      assert |key| == 1 && LowerChar(key[0]) == '\n';
      assert key == "\n";
    }
  }

  /** Every folded key prefix-matches the newline, whose matched text is
      empty. */
  lemma NewlinePrefix<V>(d: Dict<V>)
    requires d.foldOrder == [""] && d.casemap == map["" := ""]
    ensures PrefixMatches(d, "\n") == [""]
  {
    assert Lower("\n") == "\n";
    assert MatchedText("\n") == "";
    SplitKeyUnique("\n", "", "");
    assert KeyMatches("", "", "");
    assert SplitKey(Lower("\n")) == ("", "");
    assert [""][1..] == [];
    assert MatchesIn([""], d.casemap, "", "") == [""] + MatchesIn([], d.casemap, "", "");
  }

  /** The exception: with only the empty key stored, `"\n" in d` is false
      but `d["\n"]` finds the empty key's value. */
  lemma NewlineKeyExample(x: int, d: Dict<int>)
    requires d == Insert(Empty(), "", x)
    ensures Lookup(d, "\n") == Some(x)
    ensures !Has(d, "\n")
  {
    assert Lower("") == "";
    assert d == Dict([""], map["" := x], [""], map["" := ""]);
    NewlinePrefix(d);
    assert Lower("\n") == "\n";
    assert "\n" !in d.od && "\n" !in d.casemap;
  }

  /** Looking up a key that differs from a stored key `k` only in case gives
      `k`'s value, as long as the casemap entry still points at `k` and the
      looked-up spelling is not itself stored. */
  lemma CaseVariantLookup<V>(d: Dict<V>, k: string, q: string)
    requires WellFormed(d)
    requires Lower(k) in d.casemap && d.casemap[Lower(k)] == k
    requires Lower(q) == Lower(k)
    ensures Lookup(d, q) == if q in d.od then Some(d.od[q]) else Some(d.od[k])
  {
  }

  /** `__setitem__` keeps the invariant. */
  lemma InsertWellFormed<V>(d: Dict<V>, key: string, value: V)
    requires WellFormed(d)
    ensures WellFormed(Insert(d, key, value))
  {
    var r := Insert(d, key, value);
    var f := Lower(key);
    if key !in d.od {
      assert key !in d.order;
      forall i, j | 0 <= i < j < |r.order| ensures r.order[i] != r.order[j] {
        if j == |d.order| {
          assert r.order[i] == d.order[i];
        }
      }
    }
    if f !in d.casemap {
      assert f !in d.foldOrder;
      forall i, j | 0 <= i < j < |r.foldOrder| ensures r.foldOrder[i] != r.foldOrder[j] {
        if j == |d.foldOrder| {
          assert r.foldOrder[i] == d.foldOrder[i];
        }
      }
    }
    forall k ensures k in r.order <==> k in r.od {
    }
    forall g | g in r.casemap ensures r.casemap[g] in r.od && Lower(r.casemap[g]) == g {
    }
  }

  /** `__setitem__` stores the value under `key`, points the casemap at the
      new spelling, and changes no other entry. */
  lemma InsertProperties<V>(d: Dict<V>, key: string, value: V)
    requires WellFormed(d)
    ensures var r := Insert(d, key, value);
      && WellFormed(r)
      && Lookup(r, key) == Some(value)
      && Lower(key) in r.casemap && r.casemap[Lower(key)] == key
      && (forall k :: k != key ==> Get(r.od, k) == Get(d.od, k))
      && (forall f :: f != Lower(key) ==> Get(r.casemap, f) == Get(d.casemap, f))
      && |r.order| == |d.order| + (if key in d.od then 0 else 1)
  {
    InsertWellFormed(d, key, value);
    var r := Insert(d, key, value);
    assert key in r.od && r.od[key] == value;
    assert Lookup(r, key) == Some(value);
  }

  /** `__delitem__` keeps the invariant. */
  lemma RemoveWellFormed<V>(d: Dict<V>, key: string)
    requires WellFormed(d)
    requires Remove(d, key).Ok?
    ensures WellFormed(Remove(d, key).value)
  {
    var r := Remove(d, key).value;
    var f := Lower(key);
    assert r.order == Without(d.order, key) && r.od == d.od - {key};
    forall k ensures k in r.order <==> k in r.od {
    }
    if d.casemap[f] == key {
      assert r.foldOrder == Without(d.foldOrder, f) && r.casemap == d.casemap - {f};
      forall g | g in r.casemap ensures r.casemap[g] in r.od && Lower(r.casemap[g]) == g {
        assert d.casemap[g] != key;
      }
    } else {
      assert r.foldOrder == d.foldOrder && r.casemap == d.casemap;
      forall g | g in r.casemap ensures r.casemap[g] in r.od && Lower(r.casemap[g]) == g {
      }
    }
  }

  /** `__delitem__` fails exactly when the key or its folded form is
      missing; otherwise it removes the key from `od` and changes no other
      entry. */
  lemma RemoveProperties<V>(d: Dict<V>, key: string)
    requires WellFormed(d)
    ensures Remove(d, key).Ok? <==> key in d.od && Lower(key) in d.casemap
    ensures Remove(d, key).Ok? ==> var r := Remove(d, key).value;
      && WellFormed(r)
      && key !in r.od
      && (forall k :: k != key ==> Get(r.od, k) == Get(d.od, k))
  {
    if Remove(d, key).Ok? {
      RemoveWellFormed(d, key);
    }
  }

  /** `__delitem__` keeps the casemap entry of the key exactly when it
      pointed at another spelling, and changes no other casemap entry. */
  lemma RemoveCasemap<V>(d: Dict<V>, key: string)
    requires Remove(d, key).Ok?
    ensures var r := Remove(d, key).value;
      && (Lower(key) in r.casemap <==> d.casemap[Lower(key)] != key)
      && (forall f :: f != Lower(key) ==> Get(r.casemap, f) == Get(d.casemap, f))
  {
  }

  /** A list with no repeated element has as many elements as its set. */
  lemma {:induction false} DistinctCardinality(s: seq<string>)
    requires Distinct(s)
    ensures |set x | x in s| == |s|
  {
    if s != [] {
      DistinctCardinality(s[1..]);
      assert (set x | x in s) == (set x | x in s[1..]) + {s[0]};
      assert s[0] !in s[1..];
    }
  }

  /** `len(d)`, the length of the key order, is the number of stored keys. */
  lemma LenIsKeyCount<V>(d: Dict<V>)
    requires WellFormed(d)
    ensures |d.order| == |d.od|
  {
    DistinctCardinality(d.order);
    assert (set x | x in d.order) == d.od.Keys;
  }

  /** Applying a function to every value keeps the invariant. */
  lemma MapValuesWellFormed<V, W>(d: Dict<V>, f: V -> W)
    requires WellFormed(d)
    ensures WellFormed(MapValues(d, f))
  {
  }

  /** After applying a function to every value, every lookup tier finds the
      same key as before. */
  lemma MapValuesLookup<V, W>(d: Dict<V>, f: V -> W, key: string)
    ensures Lookup(MapValues(d, f), key) == match Lookup(d, key) case Some(v) => Some(f(v)) case None => None
    ensures Has(MapValues(d, f), key) == Has(d, key)
  {
    assert PrefixMatches(MapValues(d, f), key) == PrefixMatches(d, key);
  }

  /** A loop that applies `f` to the entry of every key of the order, one
      key at a time, ends with `MapValues(d, f)`: `od` is its entries once
      the keys `done` have been visited, and every key has been. */
  /** One more value updated in place: the key joins the done set. */
  lemma MapValuesStep<V>(d: Dict<V>, f: V -> V, od: map<string, V>, done: set<string>, k: string)
    requires od.Keys == d.od.Keys && k in d.od
    requires forall k' :: k' in d.od ==> od[k'] == if k' in done then f(d.od[k']) else d.od[k']
    ensures od[k := f(d.od[k])].Keys == d.od.Keys
    ensures forall k' :: k' in d.od ==>
      od[k := f(d.od[k])][k'] == if k' in done + {k} then f(d.od[k']) else d.od[k']
  {
  }

  lemma MapValuesDone<V>(d: Dict<V>, f: V -> V, od: map<string, V>, done: set<string>)
    requires WellFormed(d)
    requires od.Keys == d.od.Keys
    requires forall j :: 0 <= j < |d.order| ==> d.order[j] in done
    requires forall k :: k in d.od ==> od[k] == if k in done then f(d.od[k]) else d.od[k]
    ensures Dict(d.order, od, d.foldOrder, d.casemap) == MapValues(d, f)
  {
    forall k | k in d.od
      ensures od[k] == MapValues(d, f).od[k]
    {
      var j :| 0 <= j < |d.order| && d.order[j] == k;
    }
    assert od == MapValues(d, f).od;
  }

  /** The dictionary after `d[keys[i]] = values[i]` for each i in turn. */
  function InsertAll<V>(d: Dict<V>, keys: seq<string>, values: seq<V>): Dict<V>
    requires |keys| == |values|
    decreases |keys|
  {
    if keys == [] then d else InsertAll(Insert(d, keys[0], values[0]), keys[1..], values[1..])
  }

  /** A run of insertions keeps the invariant. */
  lemma {:induction false} InsertAllWellFormed<V>(d: Dict<V>, keys: seq<string>, values: seq<V>)
    requires |keys| == |values|
    requires WellFormed(d)
    ensures WellFormed(InsertAll(d, keys, values))
    decreases |keys|
  {
    if keys != [] {
      InsertWellFormed(d, keys[0], values[0]);
      InsertAllWellFormed(Insert(d, keys[0], values[0]), keys[1..], values[1..]);
    }
  }

  /** Every value of `m` has property `p`. */
  ghost predicate AllHave<V>(m: map<string, V>, p: V -> bool) {
    forall k :: k in m ==> p(m[k])
  }

  /** Storing a value that has property `p` in a dictionary whose values
      all have it keeps that so. */
  lemma InsertHave<V>(d: Dict<V>, key: string, x: V, p: V -> bool)
    requires AllHave(d.od, p) && p(x)
    ensures AllHave(Insert(d, key, x).od, p)
  {
    assert Insert(d, key, x).od == d.od[key := x];
  }

  /** A run of insertions of values that have property `p` into a
      dictionary whose values all have it keeps that so. */
  lemma {:induction false} InsertAllHave<V>(d: Dict<V>, keys: seq<string>, values: seq<V>, p: V -> bool)
    requires |keys| == |values|
    requires AllHave(d.od, p) && forall j :: 0 <= j < |values| ==> p(values[j])
    ensures AllHave(InsertAll(d, keys, values).od, p)
    decreases |keys|
  {
    if keys != [] {
      var next := Insert(d, keys[0], values[0]);
      assert next.od == d.od[keys[0] := values[0]];
      assert forall j :: 0 <= j < |values| - 1 ==> p(values[1..][j]);
      InsertAllHave(next, keys[1..], values[1..], p);
    }
  }

  /** A run of insertions adds exactly its keys. */
  lemma {:induction false} InsertAllKeys<V>(d: Dict<V>, keys: seq<string>, values: seq<V>)
    requires |keys| == |values|
    ensures InsertAll(d, keys, values).od.Keys == d.od.Keys + set k | k in keys
    decreases |keys|
  {
    if keys != [] {
      InsertAllKeys(Insert(d, keys[0], values[0]), keys[1..], values[1..]);
      assert (set k | k in keys) == {keys[0]} + set k | k in keys[1..];
    }
  }

  /** A run of insertions leaves every entry it does not name as it was. */
  lemma {:induction false} InsertAllKeep<V>(d: Dict<V>, keys: seq<string>, values: seq<V>, k: string)
    requires |keys| == |values|
    requires k in d.od && k !in keys
    ensures k in InsertAll(d, keys, values).od && InsertAll(d, keys, values).od[k] == d.od[k]
    decreases |keys|
  {
    if keys != [] {
      assert k != keys[0] && k !in keys[1..];
      InsertAllKeep(Insert(d, keys[0], values[0]), keys[1..], values[1..], k);
    }
  }

  /** After a run of insertions, a key that no later insertion repeats
      holds the value inserted with it. */
  lemma {:induction false} InsertAllEntry<V>(d: Dict<V>, keys: seq<string>, values: seq<V>, j: nat)
    requires |keys| == |values|
    requires j < |keys| && keys[j] !in keys[j + 1..]
    ensures keys[j] in InsertAll(d, keys, values).od && InsertAll(d, keys, values).od[keys[j]] == values[j]
    decreases |keys|
  {
    var next := Insert(d, keys[0], values[0]);
    if j == 0 {
      InsertAllKeep(next, keys[1..], values[1..], keys[0]);
    } else {
      assert keys[1..][j - 1] == keys[j] && values[1..][j - 1] == values[j];
      assert keys[1..][j - 1 + 1..] == keys[j + 1..];
      InsertAllEntry(next, keys[1..], values[1..], j - 1);
    }
  }

  /** A run of insertions under distinct new keys adds one entry per key. */
  lemma {:induction false} InsertAllCount<V>(d: Dict<V>, keys: seq<string>, values: seq<V>)
    requires |keys| == |values|
    requires Distinct(keys) && forall j :: 0 <= j < |keys| ==> keys[j] !in d.od
    ensures |InsertAll(d, keys, values).od| == |d.od| + |keys|
    decreases |keys|
  {
    if keys != [] {
      var next := Insert(d, keys[0], values[0]);
      forall j | 0 <= j < |keys| - 1 ensures keys[1..][j] !in next.od {
        assert keys[1..][j] == keys[j + 1];
      }
      InsertAllCount(next, keys[1..], values[1..]);
    }
  }

  /** The dictionary TIM1, TIM2 and TIM10 are inserted into, in that order. */
  function Timers(a: int, b: int, c: int): Dict<int> {
    Insert(Insert(Insert(Empty(), "TIM1", a), "TIM2", b), "TIM10", c)
  }

  lemma TimersFirst(a: int)
    ensures Insert(Empty(), "TIM1", a) == Dict(["TIM1"], map["TIM1" := a], ["tim1"], map["tim1" := "TIM1"])
  {
    assert Lower("TIM1") == "tim1";
  }

  lemma TimersSecond(a: int, b: int, d: Dict<int>)
    requires d == Dict(["TIM1"], map["TIM1" := a], ["tim1"], map["tim1" := "TIM1"])
    ensures Insert(d, "TIM2", b) ==
      Dict(["TIM1", "TIM2"], map["TIM1" := a, "TIM2" := b], ["tim1", "tim2"], map["tim1" := "TIM1", "tim2" := "TIM2"])
  {
    assert Lower("TIM2") == "tim2";
  }

  lemma TimersThird(a: int, b: int, c: int, d: Dict<int>)
    requires d == Dict(["TIM1", "TIM2"], map["TIM1" := a, "TIM2" := b], ["tim1", "tim2"], map["tim1" := "TIM1", "tim2" := "TIM2"])
    ensures Insert(d, "TIM10", c) ==
      Dict(["TIM1", "TIM2", "TIM10"], map["TIM1" := a, "TIM2" := b, "TIM10" := c],
           ["tim1", "tim2", "tim10"], map["tim1" := "TIM1", "tim2" := "TIM2", "tim10" := "TIM10"])
  {
    assert Lower("TIM10") == "tim10";
  }

  lemma TimersState(a: int, b: int, c: int)
    ensures Timers(a, b, c) ==
      Dict(["TIM1", "TIM2", "TIM10"], map["TIM1" := a, "TIM2" := b, "TIM10" := c],
           ["tim1", "tim2", "tim10"], map["tim1" := "TIM1", "tim2" := "TIM2", "tim10" := "TIM10"])
  {
    TimersFirst(a);
    var d1 := Insert(Empty(), "TIM1", a);
    TimersSecond(a, b, d1);
    TimersThird(a, b, c, Insert(d1, "TIM2", b));
  }

  lemma TimersPrefix(d: Dict<int>)
    requires d.foldOrder == ["tim1", "tim2", "tim10"]
    requires d.casemap == map["tim1" := "TIM1", "tim2" := "TIM2", "tim10" := "TIM10"]
    ensures PrefixMatches(d, "TIM") == ["TIM1", "TIM2", "TIM10"]
  {
    assert Lower("TIM") == "tim";
    SplitKeyUnique("tim", "tim", "");
    assert KeyMatches("tim1", "tim", "") && KeyMatches("tim2", "tim", "") && KeyMatches("tim10", "tim", "");
    assert MatchesIn([], d.casemap, "tim", "") == [];
    assert MatchesIn(["tim10"], d.casemap, "tim", "") == ["TIM10"];
    assert MatchesIn(["tim2", "tim10"], d.casemap, "tim", "") == ["TIM2", "TIM10"];
  }

  lemma TimersAmbiguous(a: int, b: int, c: int, d: Dict<int>)
    requires d == Dict(["TIM1", "TIM2", "TIM10"], map["TIM1" := a, "TIM2" := b, "TIM10" := c],
                       ["tim1", "tim2", "tim10"], map["tim1" := "TIM1", "tim2" := "TIM2", "tim10" := "TIM10"])
    ensures IsAmbiguousKey(d, "TIM") && Lookup(d, "TIM") == Some(a)
  {
    TimersPrefix(d);
    assert Lower("TIM") == "tim";
    assert "TIM" !in d.od && "tim" !in d.casemap;
  }

  lemma TimersExact(a: int, b: int, c: int, d: Dict<int>)
    requires d == Dict(["TIM1", "TIM2", "TIM10"], map["TIM1" := a, "TIM2" := b, "TIM10" := c],
                       ["tim1", "tim2", "tim10"], map["tim1" := "TIM1", "tim2" := "TIM2", "tim10" := "TIM10"])
    ensures Lookup(d, "TIM1") == Some(a) && Lookup(d, "tim2") == Some(b)
  {
    assert Lower("tim2") == "tim2";
    assert "tim2" !in d.od;
  }

  /** `"TIM"` against TIM1, TIM2 and TIM10 is ambiguous (and resolves to the
      first of them), `"TIM1"` finds its exact key, and `"tim2"` finds TIM2
      through the casemap. */
  lemma PrefixExample(a: int, b: int, c: int)
    ensures IsAmbiguousKey(Timers(a, b, c), "TIM")
    ensures Lookup(Timers(a, b, c), "TIM") == Some(a)
    ensures Lookup(Timers(a, b, c), "TIM1") == Some(a)
    ensures Lookup(Timers(a, b, c), "tim2") == Some(b)
  {
    TimersState(a, b, c);
    TimersAmbiguous(a, b, c, Timers(a, b, c));
    TimersExact(a, b, c, Timers(a, b, c));
  }

  // ---------------------------------------------------------------------
  // The container itself, updated in place.

  class SmartDict<V> {
    var order: seq<string>
    var od: map<string, V>
    var foldOrder: seq<string>
    var casemap: map<string, string>

    function Model(): Dict<V>
      reads this
    {
      Dict(order, od, foldOrder, casemap)
    }

    ghost predicate Valid()
      reads this
    {
      WellFormed(Model())
    }

    constructor ()
      ensures Valid() && Model() == Empty()
    {
      order, od, foldOrder, casemap := [], map[], [], map[];
    }

    /** `__setitem__`. */
    method SetItem(key: string, value: V) returns (warning: Option<Warning>)
      requires Valid()
      modifies this
      ensures Valid()
      ensures Model() == Insert(old(Model()), key, value)
      ensures warning == InsertWarning(old(Model()), key)
    {
      ghost var next := Insert(Model(), key, value);
      InsertWellFormed(Model(), key, value);
      var f := Lower(key);
      if key in od {
        warning := Some(DuplicateEntry(key));
      } else if f in casemap {
        warning := Some(CaseOnlyDuplicate(key, casemap[f]));
      } else {
        warning := None;
      }
      if f !in casemap {
        foldOrder := foldOrder + [f];
      }
      casemap := casemap[f := key];
      if key !in od {
        order := order + [key];
      }
      od := od[key := value];
      assert Model() == next;
    }

    /** `__delitem__`; the KeyError is returned. */
    method DelItem(key: string) returns (error: Option<Error>)
      requires Valid()
      modifies this
      ensures Valid()
      ensures Remove(old(Model()), key).Ok? ==> error.None? && Model() == Remove(old(Model()), key).value
      ensures Remove(old(Model()), key).Err? ==> error == Some(Remove(old(Model()), key).error) && Model() == old(Model())
    {
      ghost var result := Remove(Model(), key);
      if result.Ok? {
        RemoveWellFormed(Model(), key);
      }
      var f := Lower(key);
      if f !in casemap {
        assert result == Err(KeyError(f));
        return Some(KeyError(f));
      }
      if casemap[f] == key {
        casemap := casemap - {f};
        foldOrder := Without(foldOrder, f);
      }
      if key !in od {
        assert result == Err(KeyError(key));
        return Some(KeyError(key));
      }
      order := Without(order, key);
      od := od - {key};
      error := None;
      assert Model() == result.value;
    }

    /** `prefix_match(key)`: walks the casemap in order and stops at the
      first matching entry. */
    method PrefixMatch(key: string) returns (r: Option<string>)
      requires Valid()
      ensures r == FirstPrefixMatch(Model(), key)
    {
      var (name, number) := SplitKey(Lower(key));
      var i := 0;
      while i < |foldOrder|
        invariant 0 <= i <= |foldOrder|
        invariant MatchesIn(foldOrder[i..], casemap, name, number) == MatchesIn(foldOrder, casemap, name, number)
      {
        var entry := foldOrder[i];
        ghost var remaining := foldOrder[i..];
        assert remaining[0] == entry;
        if KeyMatches(entry, name, number) {
          return Some(casemap[entry]);
        }
        i := i + 1;
        MatchesInSkip(remaining, casemap, name, number, foldOrder[i..]);
      }
      return None;
    }

    /** `__getitem__`; None stands for the KeyError. */
    method GetItem(key: string) returns (r: Option<V>)
      requires Valid()
      ensures r == Lookup(Model(), key)
    {
      if key in od {
        return Some(od[key]);
      }
      var f := Lower(key);
      if f in casemap {
        return Some(od[casemap[f]]);
      }
      var m := PrefixMatch(key);
      PrefixMatchesStored(Model(), key);
      match m
      case Some(k) =>
        r := Some(od[k]);
      case None =>
        r := None;
    }

    /** `__contains__`. */
    method Contains(key: string) returns (b: bool)
      requires Valid()
      ensures b == Has(Model(), key)
    {
      if key in od || Lower(key) in casemap {
        return true;
      }
      var m := PrefixMatch(key);
      b := m.Some? && m.value != "";
    }

    /** `is_ambiguous(key)`: counts every key `prefix_match_iter` yields. */
    method IsAmbiguous(key: string) returns (b: bool)
      requires Valid()
      ensures b == IsAmbiguousKey(Model(), key)
    {
      if key in od || key in casemap {
        return false;
      }
      var (name, number) := SplitKey(Lower(key));
      var count := 0;
      var i := 0;
      while i < |foldOrder|
        invariant 0 <= i <= |foldOrder|
        invariant count + |MatchesIn(foldOrder[i..], casemap, name, number)| == |MatchesIn(foldOrder, casemap, name, number)|
      {
        assert foldOrder[i..][1..] == foldOrder[i + 1..];
        if KeyMatches(foldOrder[i], name, number) {
          count := count + 1;
        }
        i := i + 1;
      }
      b := count > 1;
    }

    /** `__len__`: the number of keys in `od`. */
    function Len(): (n: nat)
      reads this
      requires Valid()
      ensures n == |od|
    {
      LenIsKeyCount(Model());
      |order|
    }

    /** `keys()` / `__iter__`: the keys in insertion order. */
    function Keys(): (ks: seq<string>)
      reads this
      requires Valid()
      ensures Distinct(ks) && forall k :: k in ks <==> k in od
    {
      order
    }
  }
}
