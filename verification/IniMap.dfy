/**
  `INIMap`: a vector of entries and a hash index into it, kept in step, proved against plain
  functions on the vector; and what any run of its operations does to the keys and their order.
 */
module IniMap {
  import opened IniText

  /** The vector: entries in insertion order. */
  type Entries<T> = seq<(string, T)>

  /** The position of `key`; the length stands for none. */
  function IndexOf<T>(es: Entries<T>, key: string): (i: nat)
    ensures i <= |es| && (i < |es| ==> es[i].0 == key)
    ensures forall j :: 0 <= j < i ==> es[j].0 != key
  {
    if es == [] || es[0].0 == key then 0 else 1 + IndexOf(es[1..], key)
  }

  predicate Has<T>(es: Entries<T>, key: string) {
    IndexOf(es, key) < |es|
  }

  function Lookup<T>(es: Entries<T>, key: string): T
    requires Has(es, key)
  {
    es[IndexOf(es, key)].1
  }

  /** Overwrite in place, or append. */
  function Put<T>(es: Entries<T>, key: string, value: T): Entries<T> {
    var i := IndexOf(es, key);
    if i < |es| then es[i := (key, value)] else es + [(key, value)]
  }

  function Drop<T>(es: Entries<T>, key: string): Entries<T> {
    var i := IndexOf(es, key);
    if i < |es| then es[..i] + es[i + 1..] else es
  }

  /** Names are stored trimmed and in lower case, each once. */
  ghost predicate Keyed<T>(es: Entries<T>) {
    && (forall i :: 0 <= i < |es| ==> Normal(es[i].0))
    && forall i, j :: 0 <= i < j < |es| ==> es[i].0 != es[j].0
  }

  ghost function ToMap<T>(es: Entries<T>): (m: map<string, T>)
    ensures forall k :: k in m <==> Has(es, k)
    ensures forall k :: k in m ==> m[k] == Lookup(es, k)
  {
    HasWhere(es);
    map k | k in (set i | 0 <= i < |es| :: es[i].0) && Has(es, k) :: Lookup(es, k)
  }

  lemma HasWhere<T>(es: Entries<T>)
    ensures forall k :: Has(es, k) ==> k in (set i | 0 <= i < |es| :: es[i].0)
  {
    forall k | Has(es, k) ensures k in (set i | 0 <= i < |es| :: es[i].0) {
      assert es[IndexOf(es, k)].0 == k;
    }
  }

  lemma IndexIs<T>(es: Entries<T>, i: nat)
    requires Keyed(es) && i < |es|
    ensures IndexOf(es, es[i].0) == i
  {
  }

  /** Positions depend on the keys alone. */
  lemma {:induction false} SameIndex<T, U>(a: Entries<T>, b: Entries<U>, key: string)
    requires |a| == |b| && forall i :: 0 <= i < |a| ==> a[i].0 == b[i].0
    ensures IndexOf(a, key) == IndexOf(b, key)
    decreases |a|
  {
    if a != [] && a[0].0 != key {
      SameIndex(a[1..], b[1..], key);
    }
  }

  // ---------------------------------------------------------------- what the functions mean

  lemma PutMeans<T>(es: Entries<T>, key: string, value: T)
    ensures ToMap(Put(es, key, value)) == ToMap(es)[key := value]
  {
    var r := Put(es, key, value);
    forall k ensures Has(r, k) <==> k == key || Has(es, k) {
      PutIndex(es, key, value, k);
    }
    forall k | Has(r, k) ensures Lookup(r, k) == if k == key then value else Lookup(es, k) {
      PutIndex(es, key, value, k);
    }
  }

  /** A new key goes to the end; every other key stays where it was. */
  lemma PutIndex<T>(es: Entries<T>, key: string, value: T, k: string)
    ensures IndexOf(Put(es, key, value), k) == if k == key || Has(es, k) then IndexOf(es, k) else |Put(es, key, value)|
    ensures Has(Put(es, key, value), k) <==> k == key || Has(es, k)
  {
    var r, i := Put(es, key, value), IndexOf(Put(es, key, value), k);
    var j := IndexOf(es, k);
    assert forall m :: 0 <= m < |es| ==> r[m].0 == es[m].0;
    assert !Has(es, key) ==> r[|es|].0 == key;
    if k == key || j < |es| {
      assert r[j].0 == k;
    } else {
      assert forall m :: 0 <= m < |r| ==> r[m].0 != k;
    }
  }

  lemma PutKeyed<T>(es: Entries<T>, key: string, value: T)
    requires Keyed(es) && Normal(key)
    ensures Keyed(Put(es, key, value))
  {
    hide Normal;
    var i := IndexOf(es, key);
    assert forall m :: 0 <= m < |es| ==> Put(es, key, value)[m].0 == es[m].0;
  }

  /** A dropped key is gone; the keys behind it move up by one and keep their order. */
  lemma DropIndex<T>(es: Entries<T>, key: string, k: string)
    requires Keyed(es)
    ensures var r, gone := Drop(es, key), IndexOf(es, key);
      IndexOf(r, k) == if k == key || !Has(es, k) then |r| else if IndexOf(es, k) < gone then IndexOf(es, k)
          else IndexOf(es, k) - 1
    ensures Has(Drop(es, key), k) <==> k != key && Has(es, k)
  {
    hide Normal;
    var r, gone := Drop(es, key), IndexOf(es, key);
    if gone < |es| {
      assert forall m :: 0 <= m < gone ==> r[m] == es[m];
      assert forall m :: gone <= m < |r| ==> r[m] == es[m + 1];
    }
    var i, j := IndexOf(r, k), IndexOf(es, k);
    if k != key && j < |es| {
      assert j != gone;
      assert r[if j < gone then j else j - 1].0 == k;
    }
  }

  lemma DropKeyed<T>(es: Entries<T>, key: string)
    requires Keyed(es)
    ensures Keyed(Drop(es, key))
  {
    hide Normal;
    var r, gone := Drop(es, key), IndexOf(es, key);
    if gone < |es| {
      assert forall m :: 0 <= m < |r| ==> r[m] == es[if m < gone then m else m + 1];
    }
  }

  lemma DropMeans<T>(es: Entries<T>, key: string)
    requires Keyed(es)
    ensures ToMap(Drop(es, key)) == ToMap(es) - {key}
  {
    hide Keyed;
    var r, gone := Drop(es, key), IndexOf(es, key);
    forall k ensures Has(r, k) <==> k != key && Has(es, k) {
      DropIndex(es, key, k);
    }
    forall k | Has(r, k) ensures Lookup(r, k) == Lookup(es, k) {
      DropIndex(es, key, k);
    }
  }

  // ---------------------------------------------------------------- the index

  /** The index is a bijection between the stored names and the positions of the vector. */
  ghost predicate Indexed<T>(es: Entries<T>, index: map<string, nat>) {
    && (forall i :: 0 <= i < |es| ==> es[i].0 in index && index[es[i].0] == i)
    && (forall k :: k in index ==> index[k] < |es| && es[index[k]].0 == k)
  }

  lemma IndexAgrees<T>(es: Entries<T>, index: map<string, nat>, key: string)
    requires Indexed(es, index)
    ensures key in index <==> Has(es, key)
    ensures key in index ==> index[key] == IndexOf(es, key)
  {
    var i := IndexOf(es, key);
    if i < |es| {
      assert es[i].0 in index;
    }
  }

  lemma IndexedAppend<T>(es: Entries<T>, index: map<string, nat>, key: string, value: T)
    requires Indexed(es, index) && !Has(es, key)
    ensures Indexed(es + [(key, value)], index[key := |es|])
  {
    IndexAgrees(es, index, key);
    var r := es + [(key, value)];
    assert forall i :: 0 <= i < |es| ==> r[i] == es[i];
  }

  lemma IndexedReplace<T>(es: Entries<T>, index: map<string, nat>, i: nat, value: T)
    requires Indexed(es, index) && i < |es|
    ensures Indexed(es[i := (es[i].0, value)], index)
  {
    var r := es[i := (es[i].0, value)];
    assert forall j :: 0 <= j < |es| ==> r[j].0 == es[j].0;
  }

  lemma DropElement<T>(es: Entries<T>, key: string, i: nat)
    requires Has(es, key) && i < |es| - 1
    ensures |Drop(es, key)| == |es| - 1 && Drop(es, key)[i] == es[if i < IndexOf(es, key) then i else i + 1]
  {
  }

  /** After the erasure every later position is one less: the decrement loop restores the bijection. */
  lemma IndexedDrop<T>(es: Entries<T>, index: map<string, nat>, key: string, later: map<string, nat>)
    requires Keyed(es) && Indexed(es, index) && key in index && later.Keys == index.Keys - {key}
    requires forall k :: k in later ==> later[k] == if index[k] > index[key] then index[k] - 1 else index[k]
    ensures Indexed(Drop(es, key), later)
  {
    hide Normal, IndexOf, Drop;
    IndexAgrees(es, index, key);
    var gone, r := index[key], Drop(es, key);
    DropOnly(es, key);
    forall i | 0 <= i < |r| ensures r[i].0 in later && later[r[i].0] == i {
      DropElement(es, key, i);
    }
    forall k | k in later ensures later[k] < |r| && r[later[k]].0 == k {
      assert index[k] != gone;
      DropElement(es, key, later[k]);
    }
  }

  lemma DropOnly<T>(es: Entries<T>, key: string)
    requires Has(es, key)
    ensures |Drop(es, key)| == |es| - 1
  {
  }

  /** A stored name is the one looked for exactly if it is another spelling of it. */
  lemma FoundIs<T>(es: Entries<T>, name: string)
    requires Keyed(es)
    ensures forall i :: 0 <= i < |es| ==> (es[i].0 == Norm(name) <==> SameName(es[i].0, name))
    ensures Has(es, Norm(name)) <==> exists i :: 0 <= i < |es| && SameName(es[i].0, name)
  {
    hide Norm, SameName;
    forall i | 0 <= i < |es| ensures es[i].0 == Norm(name) <==> SameName(es[i].0, name) {
      NormSameIff(es[i].0, name);
    }
    if Has(es, Norm(name)) {
      assert es[IndexOf(es, Norm(name))].0 == Norm(name);
    }
  }

  // ---------------------------------------------------------------- the class

  class INIMap<T> {
    var data: Entries<T>
    var dataIndexMap: map<string, nat>
    const blank: T

    ghost predicate Valid()
      reads this
    {
      Keyed(data) && Indexed(data, dataIndexMap)
    }

    constructor (blank: T)
      ensures Valid() && data == [] && this.blank == blank
    {
      data, dataIndexMap := [], map[];
      this.blank := blank;
    }

    constructor Copy(other: INIMap<T>)
      requires other.Valid()
      ensures Valid() && data == other.data && blank == other.blank
    {
      data := [];
      blank := other.blank;
      new;
      hide Keyed, Indexed;
      var i := 0;
      while i < |other.data|
        invariant 0 <= i <= |other.data| && data == other.data[..i]
      {
        data := data + [other.data[i]];
        i := i + 1;
      }
      assert other.data[..|other.data|] == other.data;
      dataIndexMap := other.dataIndexMap;
    }

    method SetEmpty(key: string) returns (index: nat)
      requires Valid() && Normal(key) && !Has(data, key)
      modifies this
      ensures Valid() && data == old(data) + [(key, blank)] && index == |old(data)|
    {
      hide Keyed, Indexed, Normal, IndexOf;
      PutKeyed(data, key, blank);
      IndexedAppend(data, dataIndexMap, key, blank);
      index := |data|;
      dataIndexMap := dataIndexMap[key := index];
      data := data + [(key, blank)];
    }

    /** `operator[]`: the position stands for the reference that is returned. */
    method At(name: string) returns (index: nat)
      requires Valid()
      modifies this
      ensures Valid() && index == IndexOf(old(data), Norm(name)) < |data| && data[index].0 == Norm(name)
      ensures data == if Has(old(data), Norm(name)) then old(data) else old(data) + [(Norm(name), blank)]
    {
      hide Keyed, Indexed, Normal, IndexOf, Norm;
      var key := Norm(name);
      NormIsNormal(name);
      IndexAgrees(data, dataIndexMap, key);
      if key in dataIndexMap {
        index := dataIndexMap[key];
      } else {
        index := SetEmpty(key);
      }
    }

    /** Writing through such a reference. */
    method Store(index: nat, value: T)
      requires Valid() && index < |data|
      modifies this
      ensures Valid() && data == Put(old(data), old(data)[index].0, value)
      ensures data == old(data)[index := (old(data)[index].0, value)]
    {
      IndexIs(data, index);
      KeyedIsNormal(data, index);
      hide Keyed, Indexed, Normal, IndexOf;
      PutKeyed(data, data[index].0, value);
      IndexedReplace(data, dataIndexMap, index, value);
      data := data[index := (data[index].0, value)];
    }

    method Get(name: string) returns (value: T)
      requires Valid()
      ensures value == if Has(data, Norm(name)) then Lookup(data, Norm(name)) else blank
      ensures forall i :: 0 <= i < |data| && SameName(data[i].0, name) ==> value == data[i].1
      ensures (forall i :: 0 <= i < |data| ==> !SameName(data[i].0, name)) ==> value == blank
    {
      FoundIs(data, name);
      hide Keyed, Indexed, IndexOf, Norm, SameName;
      var key := Norm(name);
      IndexAgrees(data, dataIndexMap, key);
      if key !in dataIndexMap {
        return blank;
      }
      return data[dataIndexMap[key]].1;
    }

    method Contains(name: string) returns (has: bool)
      requires Valid()
      ensures has <==> Has(data, Norm(name))
      ensures has <==> exists i :: 0 <= i < |data| && SameName(data[i].0, name)
    {
      FoundIs(data, name);
      hide Keyed, Indexed, IndexOf, Norm, SameName;
      IndexAgrees(data, dataIndexMap, Norm(name));
      has := Norm(name) in dataIndexMap;
    }

    method Set(name: string, value: T)
      requires Valid()
      modifies this
      ensures Valid() && data == Put(old(data), Norm(name), value)
    {
      hide Keyed, Indexed, Normal, IndexOf, Norm;
      var key := Norm(name);
      NormIsNormal(name);
      IndexAgrees(data, dataIndexMap, key);
      PutKeyed(data, key, value);
      if key in dataIndexMap {
        IndexedReplace(data, dataIndexMap, dataIndexMap[key], value);
        data := data[dataIndexMap[key] := (key, value)];
      } else {
        IndexedAppend(data, dataIndexMap, key, value);
        dataIndexMap := dataIndexMap[key := |data|];
        data := data + [(key, value)];
      }
    }

    /** Erase the entry, then move every later position in the index down by one. */
    method Remove(name: string) returns (removed: bool)
      requires Valid()
      modifies this
      ensures Valid() && data == Drop(old(data), Norm(name))
      ensures removed <==> Has(old(data), Norm(name))
    {
      hide Keyed, Indexed, Normal, IndexOf, Norm;
      var key := Norm(name);
      IndexAgrees(data, dataIndexMap, key);
      if key !in dataIndexMap {
        return false;
      }
      var index := dataIndexMap[key];
      ghost var before := dataIndexMap;
      DropKeyed(data, key);
      data := data[..index] + data[index + 1..];
      dataIndexMap := dataIndexMap - {key};
      var todo := dataIndexMap.Keys;
      while todo != {}
        invariant todo <= dataIndexMap.Keys == before.Keys - {key}
        invariant forall k :: k in dataIndexMap ==>
          dataIndexMap[k] == if k !in todo && before[k] > index then before[k] - 1 else before[k]
        invariant data == Drop(old(data), key)
        decreases |todo|
      {
        var k :| k in todo;
        todo := todo - {k};
        if dataIndexMap[k] > index {
          dataIndexMap := dataIndexMap[k := dataIndexMap[k] - 1];
        }
      }
      IndexedDrop(old(data), before, key, dataIndexMap);
      removed := true;
    }

    method Clear()
      modifies this
      ensures Valid() && data == []
    {
      data, dataIndexMap := [], map[];
    }

    method Size() returns (n: nat)
      requires Valid()
      ensures n == |data| == |ToMap(data)|
    {
      n := |data|;
      SizeIs(data);
    }
  }

  lemma KeyedIsNormal<T>(es: Entries<T>, i: nat)
    requires Keyed(es) && i < |es|
    ensures Normal(es[i].0)
  {
    hide Normal;
  }

  lemma {:induction false} SizeIs<T>(es: Entries<T>)
    requires Keyed(es)
    ensures |ToMap(es)| == |es|
    decreases |es|
  {
    hide Normal, ToMap;
    if es == [] {
      assert forall k :: !Has(es, k);
      assert ToMap(es) == map[];
    } else {
      var last := |es| - 1;
      var init, key, value := es[..last], es[last].0, es[last].1;
      assert Keyed(init);
      SizeIs(init);
      assert !Has(init, key) by {
        assert forall j :: 0 <= j < last ==> init[j] == es[j];
      }
      assert init + [(key, value)] == es;
      PutMeans(init, key, value);
    }
  }

  /** What is set under one spelling of a name is found under every other, and nothing else is touched. */
  lemma SetThenGet<T>(es: Entries<T>, a: string, value: T, b: string)
    ensures var r := Put(es, Norm(a), value);
      && (SameName(a, b) ==> Has(r, Norm(b)) && Lookup(r, Norm(b)) == value)
      && (!SameName(a, b) ==> (Has(r, Norm(b)) <==> Has(es, Norm(b))))
      && (!SameName(a, b) && Has(es, Norm(b)) ==> Lookup(r, Norm(b)) == Lookup(es, Norm(b)))
  {
    hide Norm, SameName;
    NormSameIff(a, b);
    PutIndex(es, Norm(a), value, Norm(b));
  }

  /** The same for what is removed. */
  lemma RemoveThenGet<T>(es: Entries<T>, a: string, b: string)
    requires Keyed(es)
    ensures Has(Drop(es, Norm(a)), Norm(b)) <==> Has(es, Norm(b)) && !SameName(a, b)
  {
    hide Norm, SameName, Keyed;
    NormSameIff(a, b);
    DropIndex(es, Norm(a), Norm(b));
  }

  // ---------------------------------------------------------------- any run of operations

  datatype Op<T> = AtOp(name: string) | SetOp(name: string, value: T) | RemoveOp(name: string) | ClearOp

  function Apply<T>(es: Entries<T>, op: Op<T>, blank: T): Entries<T> {
    match op
    case AtOp(name) => if Has(es, Norm(name)) then es else Put(es, Norm(name), blank)
    case SetOp(name, value) => Put(es, Norm(name), value)
    case RemoveOp(name) => Drop(es, Norm(name))
    case ClearOp => []
  }

  function ApplyAll<T>(es: Entries<T>, ops: seq<Op<T>>, blank: T): Entries<T>
    decreases |ops|
  {
    if ops == [] then es else ApplyAll(Apply(es, ops[0], blank), ops[1..], blank)
  }

  /** The class performs any run of operations exactly as the functions do, and stays valid. */
  method Perform<T>(m: INIMap<T>, ops: seq<Op<T>>)
    requires m.Valid()
    modifies m
    ensures m.Valid() && m.data == ApplyAll(old(m.data), ops, m.blank)
  {
    hide Keyed, Indexed, Normal, IndexOf, Norm;
    var i := 0;
    assert ops[0..] == ops;
    while i < |ops|
      invariant 0 <= i <= |ops| && m.Valid()
      invariant ApplyAll(m.data, ops[i..], m.blank) == ApplyAll(old(m.data), ops, m.blank)
    {
      assert ops[i..][1..] == ops[i + 1..];
      match ops[i] {
        case AtOp(name) => var index := m.At(name);
        case SetOp(name, value) => m.Set(name, value);
        case RemoveOp(name) => var removed := m.Remove(name);
        case ClearOp => m.Clear();
      }
      i := i + 1;
    }
  }

  /** The plain map that a run computes. */
  ghost function ApplyMap<T>(m: map<string, T>, op: Op<T>, blank: T): map<string, T> {
    match op
    case AtOp(name) => if Norm(name) in m then m else m[Norm(name) := blank]
    case SetOp(name, value) => m[Norm(name) := value]
    case RemoveOp(name) => m - {Norm(name)}
    case ClearOp => map[]
  }

  ghost function ApplyAllMap<T>(m: map<string, T>, ops: seq<Op<T>>, blank: T): map<string, T>
    decreases |ops|
  {
    if ops == [] then m else ApplyAllMap(ApplyMap(m, ops[0], blank), ops[1..], blank)
  }

  predicate Removes<T>(op: Op<T>, key: string) {
    op.ClearOp? || (op.RemoveOp? && Norm(op.name) == key)
  }

  lemma ApplyStep<T>(es: Entries<T>, op: Op<T>, blank: T)
    requires Keyed(es)
    ensures Keyed(Apply(es, op, blank)) && ToMap(Apply(es, op, blank)) == ApplyMap(ToMap(es), op, blank)
  {
    hide Keyed, Normal, Norm, ToMap, Put, Drop;
    match op
    case AtOp(name) =>
      NormIsNormal(name);
      PutKeyed(es, Norm(name), blank);
      PutMeans(es, Norm(name), blank);
    case SetOp(name, value) =>
      NormIsNormal(name);
      PutKeyed(es, Norm(name), value);
      PutMeans(es, Norm(name), value);
    case RemoveOp(name) =>
      DropKeyed(es, Norm(name));
      DropMeans(es, Norm(name));
    case ClearOp =>
      EmptyMeans<T>();
  }

  lemma EmptyMeans<T>()
    ensures Keyed<T>([]) && ToMap<T>([]) == map[]
  {
    assert forall k :: !Has<T>([], k);
  }

  lemma OrderStep<T>(es: Entries<T>, op: Op<T>, blank: T, a: string, b: string)
    requires Keyed(es) && IndexOf(es, a) < IndexOf(es, b) < |es| && !Removes(op, a) && !Removes(op, b)
    ensures var r := Apply(es, op, blank); IndexOf(r, a) < IndexOf(r, b) < |r|
  {
    hide Keyed, Normal, Norm, IndexOf, Put, Drop;
    match op
    case AtOp(name) =>
      PutIndex(es, Norm(name), blank, a);
      PutIndex(es, Norm(name), blank, b);
    case SetOp(name, value) =>
      PutIndex(es, Norm(name), value, a);
      PutIndex(es, Norm(name), value, b);
    case RemoveOp(name) =>
      DropIndex(es, Norm(name), a);
      DropIndex(es, Norm(name), b);
      OtherIndex(es, Norm(name), a);
      OtherIndex(es, Norm(name), b);
    case ClearOp =>
  }

  lemma OtherIndex<T>(es: Entries<T>, k: string, a: string)
    requires k != a && Has(es, a)
    ensures IndexOf(es, k) != IndexOf(es, a)
  {
  }

  /**
    Whatever the run, the vector stays keyed, it means what the run makes of a plain map, and keys that
    are never removed keep their relative order.
   */
  lemma {:induction false} RunRefines<T>(es: Entries<T>, ops: seq<Op<T>>, blank: T, a: string, b: string)
    requires Keyed(es)
    ensures var r := ApplyAll(es, ops, blank);
      && Keyed(r) && ToMap(r) == ApplyAllMap(ToMap(es), ops, blank)
      && (IndexOf(es, a) < IndexOf(es, b) < |es| && (forall op :: op in ops ==> !Removes(op, a) && !Removes(op, b)) ==>
          IndexOf(r, a) < IndexOf(r, b) < |r|)
    decreases |ops|
  {
    hide Keyed, ToMap, IndexOf, Apply, ApplyMap, Removes;
    if ops != [] {
      ApplyStep(es, ops[0], blank);
      RunRefines(Apply(es, ops[0], blank), ops[1..], blank, a, b);
      if IndexOf(es, a) < IndexOf(es, b) < |es| && !Removes(ops[0], a) && !Removes(ops[0], b) {
        OrderStep(es, ops[0], blank, a, b);
      }
    }
  }
}
