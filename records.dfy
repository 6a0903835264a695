/** The record set shared by the extractor, the translator and the progress
    checker: category name -> translation key -> record, where both levels
    are JSON objects whose key order (Python's insertion order) matters. */
module Records {

  datatype Option<T> = None | Some(value: T) {
    function GetOr(default: T): T {
      if Some? then value else default
    }
  }

  datatype Lang = Ar | En | Fr | Zh

  /** One translation record. `flag` is the JSON `needs_translation` field;
      `None` stands for a record that does not carry the field. */
  datatype Record = Record(ar: string, en: string, fr: string, zh: string,
                           sourceFile: string, flag: Option<bool>)
  {
    /** `item.get('needs_translation', True)`: a missing flag reads as true. */
    predicate NeedsTranslation() {
      flag != Some(false)
    }

    function Field(lang: Lang): string {
      match lang
      case Ar => ar
      case En => en
      case Fr => fr
      case Zh => zh
    }
  }

  /** An insertion-ordered JSON object: its (key, value) pairs in order. */
  type Dict<V> = seq<(string, V)>

  type Category = Dict<Record>

  type RecordSet = Dict<Category>

  predicate DistinctKeys<V>(d: Dict<V>) {
    forall i, j :: 0 <= i < j < |d| ==> d[i].0 != d[j].0
  }

  predicate HasKey<V>(d: Dict<V>, k: string) {
    exists i :: 0 <= i < |d| && d[i].0 == k
  }

  /** `d[k]`, or `default` when `k` is absent (`d.get(k, default)`). */
  function Get<V>(d: Dict<V>, k: string, default: V): V {
    if d == [] then default
    else if d[0].0 == k then d[0].1
    else Get(d[1..], k, default)
  }

  /** `Get` finds the value stored at the first occurrence of the key, and
      falls back to the default only when the key is absent. */
  lemma {:induction false} GetSpec<V>(d: Dict<V>, k: string, default: V)
    ensures !HasKey(d, k) ==> Get(d, k, default) == default
    ensures forall i :: 0 <= i < |d| && FirstAt(d, k, i) ==> Get(d, k, default) == d[i].1
  {
    if d != [] && d[0].0 != k {
      GetSpec(d[1..], k, default);
      if HasKey(d[1..], k) {
        var i :| 0 <= i < |d[1..]| && d[1..][i].0 == k;
        assert d[i + 1].0 == k;
      }
      forall i | 0 <= i < |d| && FirstAt(d, k, i) ensures Get(d, k, default) == d[i].1 {
        assert FirstAt(d[1..], k, i - 1);
      }
    }
  }

  /** `d[k] = v`: replaces the value in place when `k` is present, appends
      the pair at the end otherwise. */
  function Set<V>(d: Dict<V>, k: string, v: V): Dict<V> {
    if d == [] then [(k, v)]
    else if d[0].0 == k then [(k, v)] + d[1..]
    else [d[0]] + Set(d[1..], k, v)
  }

  /** A new key goes at the end; an existing key keeps its position and
      only its value changes. */
  lemma {:induction false} SetSpec<V>(d: Dict<V>, k: string, v: V)
    ensures !HasKey(d, k) ==> Set(d, k, v) == d + [(k, v)]
    ensures forall i :: 0 <= i < |d| && FirstAt(d, k, i) ==> Set(d, k, v) == d[i := (k, v)]
  {
    if d != [] && d[0].0 != k {
      SetSpec(d[1..], k, v);
      if HasKey(d[1..], k) {
        var i :| 0 <= i < |d[1..]| && d[1..][i].0 == k;
        assert d[i + 1].0 == k;
      }
      forall i | 0 <= i < |d| && FirstAt(d, k, i) ensures Set(d, k, v) == d[i := (k, v)] {
        assert FirstAt(d[1..], k, i - 1);
      }
    } else if d != [] {
      forall i | 0 <= i < |d| && FirstAt(d, k, i) ensures Set(d, k, v) == d[i := (k, v)] {
        assert i == 0;
      }
    }
  }

  /** `i` is the first position of key `k` in `d`. */
  predicate FirstAt<V>(d: Dict<V>, k: string, i: nat) {
    i < |d| && d[i].0 == k && forall j :: 0 <= j < i ==> d[j].0 != k
  }

  /** Number of records in a record set: the sum of the category sizes. */
  function Size(data: RecordSet): nat {
    if data == [] then 0 else Size(data[..|data| - 1]) + |data[|data| - 1].1|
  }

  /** Number of records in `data` satisfying `p`. */
  function CountWhere(data: RecordSet, p: Record -> bool): (n: nat)
    ensures n <= Size(data)
  {
    if data == [] then 0
    else CountWhere(data[..|data| - 1], p) + CountIn(data[|data| - 1].1, p)
  }

  function CountIn(items: Category, p: Record -> bool): (n: nat)
    ensures n <= |items|
  {
    if items == [] then 0
    else CountIn(items[..|items| - 1], p) + (if p(items[|items| - 1].1) then 1 else 0)
  }

  /** Every record of `data` satisfies `p`. */
  predicate Every(data: RecordSet, p: Record -> bool) {
    forall i, a :: 0 <= i < |data| && 0 <= a < |data[i].1| ==> p(data[i].1[a].1)
  }

  /** Counting a predicate and its negation splits the record set. */
  lemma {:induction false} CountComplement(data: RecordSet, p: Record -> bool)
    ensures CountWhere(data, p) + CountWhere(data, r => !p(r)) == Size(data)
  {
    if data != [] {
      CountComplement(data[..|data| - 1], p);
      CountInComplement(data[|data| - 1].1, p);
    }
  }

  lemma {:induction false} CountInComplement(items: Category, p: Record -> bool)
    ensures CountIn(items, p) + CountIn(items, r => !p(r)) == |items|
  {
    if items != [] {
      CountInComplement(items[..|items| - 1], p);
    }
  }

  /** Counting two predicates that hold of disjoint, jointly exhaustive sets
      of records splits the record set. */
  lemma {:induction false} CountPartition(data: RecordSet, p: Record -> bool, q: Record -> bool)
    requires Every(data, r => p(r) != q(r))
    ensures CountWhere(data, p) + CountWhere(data, q) == Size(data)
  {
    if data != [] {
      var init := data[..|data| - 1];
      assert Every(init, r => p(r) != q(r)) by {
        forall i, a | 0 <= i < |init| && 0 <= a < |init[i].1|
          ensures p(init[i].1[a].1) != q(init[i].1[a].1)
        {
          assert init[i] == data[i];
        }
      }
      CountPartition(init, p, q);
      CountInPartition(data[|data| - 1].1, p, q);
    }
  }

  lemma {:induction false} CountInPartition(items: Category, p: Record -> bool, q: Record -> bool)
    requires forall a :: 0 <= a < |items| ==> p(items[a].1) != q(items[a].1)
    ensures CountIn(items, p) + CountIn(items, q) == |items|
  {
    if items != [] {
      CountInPartition(items[..|items| - 1], p, q);
    }
  }

  /** The keys of one JSON object. */
  function Keys<V>(d: Dict<V>): (ks: set<string>)
    ensures forall k :: k in ks <==> HasKey(d, k)
  {
    set i | 0 <= i < |d| :: d[i].0
  }

  /** Every translation key used anywhere in a record set. */
  function AllKeys(data: RecordSet): set<string> {
    if data == [] then {} else AllKeys(data[..|data| - 1]) + Keys(data[|data| - 1].1)
  }

  /** No key is used twice, neither inside one category nor across two. */
  predicate UniqueKeys(data: RecordSet) {
    && (forall i :: 0 <= i < |data| ==> DistinctKeys(data[i].1))
    && (forall i, j :: 0 <= i < j < |data| ==> Keys(data[i].1) !! Keys(data[j].1))
  }

  /** Category `c` of `data` holds record `r` (under some key). */
  predicate Holds(data: RecordSet, c: string, r: Record) {
    exists i :: 0 <= i < |data| && data[i].0 == c && InCategory(data[i].1, r)
  }

  predicate InCategory(items: Category, r: Record) {
    exists a :: 0 <= a < |items| && items[a].1 == r
  }

  /** `data.setdefault(cat, {})[key] = rec`: creates the category at the end
      when it is missing, then stores the record under `key`. */
  function Insert(data: RecordSet, cat: string, key: string, rec: Record): RecordSet {
    Set(data, cat, Set(Get(data, cat, []), key, rec))
  }

  /** Inserting a record under a key not used anywhere keeps category names
      and keys unique, adds exactly that key and that record, and grows the
      record set by one. */
  lemma InsertFresh(data: RecordSet, cat: string, key: string, rec: Record)
    requires DistinctKeys(data) && UniqueKeys(data)
    requires key !in AllKeys(data)
    ensures DistinctKeys(Insert(data, cat, key, rec))
    ensures UniqueKeys(Insert(data, cat, key, rec))
    ensures AllKeys(Insert(data, cat, key, rec)) == AllKeys(data) + {key}
    ensures Size(Insert(data, cat, key, rec)) == Size(data) + 1
    ensures forall c, r :: Holds(Insert(data, cat, key, rec), c, r) <==> Holds(data, c, r) || (c == cat && r == rec)
  {
    if HasKey(data, cat) {
      var i :| 0 <= i < |data| && data[i].0 == cat;
      InsertAtShape(data, i, key, rec);
      GrowCounts(data, i, key, rec);
      GrowUnique(data, i, key, rec);
      HoldsGrow(data, i, key, rec);
    } else {
      InsertNewShape(data, cat, key, rec);
      AppendCategory(data, cat, key, rec);
    }
  }

  /** `e` is one of the (key, record) pairs of `data`. */
  predicate HasEntry(data: RecordSet, e: (string, Record)) {
    exists j, b :: 0 <= j < |data| && 0 <= b < |data[j].1| && data[j].1[b] == e
  }

  /** Inserting under a fresh key adds the new pair and keeps every other
      pair as it was: each pair of the result is the new one or an old one. */
  lemma InsertEntries(data: RecordSet, cat: string, key: string, rec: Record)
    requires DistinctKeys(data) && UniqueKeys(data)
    requires key !in AllKeys(data)
    ensures forall e :: HasEntry(Insert(data, cat, key, rec), e) ==> e == (key, rec) || HasEntry(data, e)
  {
    var d := Insert(data, cat, key, rec);
    if HasKey(data, cat) {
      var i :| 0 <= i < |data| && data[i].0 == cat;
      InsertAtShape(data, i, key, rec);
    } else {
      InsertNewShape(data, cat, key, rec);
    }
    forall e | HasEntry(d, e) && e != (key, rec) ensures HasEntry(data, e) {
      var j, a :| 0 <= j < |d| && 0 <= a < |d[j].1| && d[j].1[a] == e;
      assert data[j].1[a] == e;
    }
  }

  lemma InsertNewShape(data: RecordSet, cat: string, key: string, rec: Record)
    requires !HasKey(data, cat)
    ensures Insert(data, cat, key, rec) == data + [(cat, [(key, rec)])]
  {
    GetSpec(data, cat, []);
    SetSpec(data, cat, [(key, rec)]);
  }

  lemma AppendCategory(data: RecordSet, cat: string, key: string, rec: Record)
    requires DistinctKeys(data) && UniqueKeys(data)
    requires key !in AllKeys(data) && !HasKey(data, cat)
    ensures DistinctKeys(data + [(cat, [(key, rec)])])
    ensures UniqueKeys(data + [(cat, [(key, rec)])])
    ensures AllKeys(data + [(cat, [(key, rec)])]) == AllKeys(data) + {key}
    ensures Size(data + [(cat, [(key, rec)])]) == Size(data) + 1
    ensures forall c, r :: Holds(data + [(cat, [(key, rec)])], c, r) <==> Holds(data, c, r) || (c == cat && r == rec)
  {
    var items: Category := [(key, rec)];
    var d := data + [(cat, items)];
    assert d[..|data|] == data;
    KeysSnoc([], key, rec);
    assert [] + items == items;
    forall j | 0 <= j < |data| ensures Keys(data[j].1) !! {key} {
      KeysInAll(data, j);
    }
    HoldsSnoc(data, cat, items);
    assert InCategory(items, rec) by {
      assert items[0].1 == rec;
    }
  }

  lemma HoldsSnoc(data: RecordSet, cat: string, items: Category)
    ensures forall c, r :: Holds(data + [(cat, items)], c, r) <==> Holds(data, c, r) || (c == cat && InCategory(items, r))
  {
    var d := data + [(cat, items)];
    forall c, r ensures Holds(d, c, r) <==> Holds(data, c, r) || (c == cat && InCategory(items, r)) {
      if Holds(d, c, r) {
        var i :| 0 <= i < |d| && d[i].0 == c && InCategory(d[i].1, r);
        if i < |data| {
          assert data[i] == d[i];
        }
      }
      if Holds(data, c, r) {
        var i :| 0 <= i < |data| && data[i].0 == c && InCategory(data[i].1, r);
        assert d[i] == data[i];
      }
      if c == cat && InCategory(items, r) {
        assert d[|data|] == (cat, items);
      }
    }
  }

  lemma InsertAtShape(data: RecordSet, i: nat, key: string, rec: Record)
    requires DistinctKeys(data) && UniqueKeys(data)
    requires key !in AllKeys(data) && i < |data|
    ensures Insert(data, data[i].0, key, rec) == Grow(data, i, key, rec)
  {
    assert FirstAt(data, data[i].0, i);
    KeysInAll(data, i);
    GetSpec(data, data[i].0, []);
    SetSpec(data[i].1, key, rec);
    SetSpec(data, data[i].0, data[i].1 + [(key, rec)]);
  }

  lemma GrowUnique(data: RecordSet, i: nat, key: string, rec: Record)
    requires UniqueKeys(data) && key !in AllKeys(data) && i < |data|
    ensures UniqueKeys(Grow(data, i, key, rec))
  {
    KeysInAll(data, i);
    KeysSnoc(data[i].1, key, rec);
    SnocDistinct(data[i].1, key, rec);
    forall j | 0 <= j < |data| && j != i ensures Keys(data[j].1) !! {key} {
      KeysInAll(data, j);
    }
  }

  lemma KeysSnoc<V>(d: Dict<V>, k: string, v: V)
    ensures Keys(d + [(k, v)]) == Keys(d) + {k}
  {
    var e := d + [(k, v)];
    forall x ensures x in Keys(e) <==> x in Keys(d) + {k} {
      if x in Keys(e) {
        var i :| 0 <= i < |e| && e[i].0 == x;
        if i < |d| {
          assert d[i] == e[i];
        }
      }
      if x in Keys(d) {
        var i :| 0 <= i < |d| && d[i].0 == x;
        assert e[i] == d[i];
      }
      if x == k {
        assert e[|d|].0 == k;
      }
    }
  }

  lemma SnocDistinct<V>(d: Dict<V>, k: string, v: V)
    requires DistinctKeys(d) && k !in Keys(d)
    ensures DistinctKeys(d + [(k, v)])
  {
    var e := d + [(k, v)];
    forall a, b | 0 <= a < b < |e| ensures e[a].0 != e[b].0 {
      if b == |d| {
        assert e[a] == d[a];
        assert HasKey(d, d[a].0);
      }
    }
  }

  lemma HoldsGrow(data: RecordSet, i: nat, key: string, rec: Record)
    requires i < |data|
    ensures forall c, r :: Holds(Grow(data, i, key, rec), c, r) <==> Holds(data, c, r) || (c == data[i].0 && r == rec)
  {
    var items := data[i].1;
    var k := key;
    forall c, r ensures Holds(Grow(data, i, key, rec), c, r) <==> Holds(data, c, r) || (c == data[i].0 && r == rec)
    {
      var items' := items + [(k, rec)];
      var d := data[i := (data[i].0, items')];
      if Holds(d, c, r) {
        var j :| 0 <= j < |d| && d[j].0 == c && InCategory(d[j].1, r);
        if j != i {
          assert data[j] == d[j];
        } else {
          var a :| 0 <= a < |items'| && items'[a].1 == r;
          if a < |items| {
            assert items[a] == items'[a];
          }
        }
      }
      if Holds(data, c, r) {
        var j :| 0 <= j < |data| && data[j].0 == c && InCategory(data[j].1, r);
        if j == i {
          var a :| 0 <= a < |items| && items[a].1 == r;
          assert items'[a] == items[a];
          assert d[i].1 == items' && InCategory(items', r);
        } else {
          assert d[j] == data[j];
        }
      }
      if c == data[i].0 && r == rec {
        assert d[i].0 == c && items'[|items|].1 == r;
        assert d[i].1 == items' && InCategory(items', r);
      }
    }
  }

  /** The category at index `i` with one more (key, record) pair at its end. */
  function Grow(data: RecordSet, i: nat, key: string, rec: Record): RecordSet
    requires i < |data|
  {
    data[i := (data[i].0, data[i].1 + [(key, rec)])]
  }

  /** Growing a category by one key adds one record and that key. */
  lemma {:induction false} GrowCounts(data: RecordSet, i: nat, key: string, rec: Record)
    requires i < |data|
    ensures Size(Grow(data, i, key, rec)) == Size(data) + 1
    ensures AllKeys(Grow(data, i, key, rec)) == AllKeys(data) + {key}
    decreases |data|
  {
    var d := Grow(data, i, key, rec);
    var n := |data| - 1;
    KeysSnoc(data[i].1, key, rec);
    if i == n {
      assert d[..n] == data[..n];
    } else {
      GrowCounts(data[..n], i, key, rec);
      assert d[..n] == Grow(data[..n], i, key, rec);
    }
  }

  /** A category's keys are among the record set's keys. */
  lemma {:induction false} KeysInAll(data: RecordSet, j: nat)
    requires j < |data|
    ensures Keys(data[j].1) <= AllKeys(data)
    decreases |data|
  {
    if j < |data| - 1 {
      KeysInAll(data[..|data| - 1], j);
    }
  }
}
