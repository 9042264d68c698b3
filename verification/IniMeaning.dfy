/**
  What lines mean: a map from section names to maps from keys to values. The ordered structure that the
  reader builds means the same, and lines that are not kept mean nothing.
 */
module IniMeaning {
  import opened Wrappers
  import opened IniText
  import opened IniParser
  import opened IniMap
  import opened IniReader

  type Maps = map<string, map<string, string>>

  /** The maps so far and the section that is open, by its stored name. */
  datatype Meaning = Meaning(maps: Maps, open: Option<string>)

  const NOTHING := Meaning(map[], None)

  function Opened(maps: Maps, name: string): Maps {
    if name in maps then maps else maps[name := map[]]
  }

  function Assigned(maps: Maps, name: string, key: string, value: string): Maps {
    maps[name := (if name in maps then maps[name] else map[])[key := value]]
  }

  function Mean(m: Meaning, line: string): Meaning {
    match ParseLine(line)
    case Section(name) => Meaning(Opened(m.maps, Norm(name)), Some(Norm(name)))
    case KeyValue(key, value) =>
      if m.open.Some? then m.(maps := Assigned(m.maps, m.open.value, Norm(key), value)) else m
    case _ => m
  }

  function MeanAll(m: Meaning, lines: seq<string>): Meaning
    decreases |lines|
  {
    if lines == [] then m else MeanAll(Mean(m, lines[0]), lines[1..])
  }

  lemma {:induction false} MeanConcat(m: Meaning, a: seq<string>, b: seq<string>)
    ensures MeanAll(m, a + b) == MeanAll(MeanAll(m, a), b)
    decreases |a|
  {
    hide Mean;
    if a == [] {
      assert a + b == b;
    } else {
      assert (a + b)[1..] == a[1..] + b;
      MeanConcat(Mean(m, a[0]), a[1..], b);
    }
  }

  lemma MeanLast(m: Meaning, a: seq<string>, line: string)
    ensures MeanAll(m, a + [line]) == Mean(MeanAll(m, a), line)
  {
    hide Mean;
    MeanConcat(m, a, [line]);
    assert [line][1..] == [];
  }

  ghost predicate Grown(read: Maps, more: Maps) {
    forall s :: s in read ==> s in more && read[s].Keys <= more[s].Keys
  }

  lemma LineGrows(m: Meaning, line: string)
    ensures Grown(m.maps, Mean(m, line).maps)
  {
    hide ParseLine, Norm;
  }

  /** Keys and sections stay. */
  lemma {:induction false} ReadGrows(m: Meaning, lines: seq<string>)
    ensures Grown(m.maps, MeanAll(m, lines).maps)
    decreases |lines|
  {
    hide Mean;
    if lines != [] {
      LineGrows(m, lines[0]);
      ReadGrows(Mean(m, lines[0]), lines[1..]);
      var next, final := Mean(m, lines[0]).maps, MeanAll(m, lines).maps;
      assert forall s :: s in m.maps ==> m.maps[s].Keys <= next[s].Keys <= final[s].Keys;
    }
  }

  // ---------------------------------------------------------------- the ordered structure means this

  ghost function ToMaps(data: Structure): Maps {
    map s | s in ToMap(data) :: ToMap(ToMap(data)[s])
  }

  ghost predicate WellKeyed(data: Structure) {
    Keyed(data) && forall i :: 0 <= i < |data| ==> Keyed(data[i].1)
  }

  lemma PutWellKeyed(data: Structure, name: string, inner: Section)
    requires WellKeyed(data) && Keyed(inner) && Normal(name)
    ensures WellKeyed(Put(data, name, inner)) && ToMaps(Put(data, name, inner)) == ToMaps(data)[name := ToMap(inner)]
  {
    hide Keyed, Normal, ToMap;
    PutKeyed(data, name, inner);
    PutMeans(data, name, inner);
    var r := Put(data, name, inner);
    forall i | 0 <= i < |r| ensures Keyed(r[i].1) {
      assert r[i].1 == inner || (i < |data| && r[i] == data[i]);
    }
  }

  lemma LookupWellKeyed(data: Structure, name: string)
    requires WellKeyed(data) && Has(data, name)
    ensures Keyed(Lookup(data, name))
    ensures name in ToMaps(data) && ToMaps(data)[name] == ToMap(Lookup(data, name))
  {
    hide Keyed;
  }

  lemma TouchMeans(data: Structure, name: string)
    requires WellKeyed(data) && Normal(name)
    ensures WellKeyed(Touch(data, name)) && Has(Touch(data, name), name)
    ensures ToMaps(Touch(data, name)) == Opened(ToMaps(data), name)
  {
    hide Keyed, Normal, ToMap;
    if Has(data, name) {
      LookupWellKeyed(data, name);
    } else {
      EmptyMeans<string>();
      PutWellKeyed(data, name, []);
      PutKeeps(data, name, []);
      assert name !in ToMaps(data);
    }
  }

  lemma AssignMeans(data: Structure, name: string, key: string, value: string)
    requires WellKeyed(data) && Normal(name) && Normal(key)
    ensures WellKeyed(Assign(data, name, key, value))
    ensures ToMaps(Assign(data, name, key, value)) == Assigned(ToMaps(data), name, key, value)
  {
    hide Keyed, Normal, ToMap, Put, Touch;
    TouchMeans(data, name);
    var touched := Touch(data, name);
    LookupWellKeyed(touched, name);
    var inner := Lookup(touched, name);
    PutKeyed(inner, key, value);
    PutMeans(inner, key, value);
    PutWellKeyed(touched, name, Put(inner, key, value));
  }

  ghost function MeaningOf(st: ReadState): Meaning {
    Meaning(ToMaps(st.data), if st.inSection then Some(Norm(st.section)) else None)
  }

  lemma {:induction false} ReadMeans(st: ReadState, lines: seq<string>)
    requires WellKeyed(st.data)
    ensures WellKeyed(ReadLines(st, lines).data)
    ensures MeaningOf(ReadLines(st, lines)) == MeanAll(MeaningOf(st), lines)
    decreases |lines|
  {
    hide WellKeyed, ParseLine, Norm, Normal, Touch, Assign, ToMaps, Opened, Assigned;
    if lines != [] {
      var parsed := ParseLine(lines[0]);
      if parsed.Section? {
        NormIsNormal(parsed.name);
        TouchMeans(st.data, Norm(parsed.name));
      } else if parsed.KeyValue? {
        NormIsNormal(parsed.key);
        NormIsNormal(st.section);
        AssignMeans(st.data, Norm(st.section), Norm(parsed.key), parsed.value);
      }
      ReadMeans(ReadLine(st, lines[0]), lines[1..]);
    }
  }

  /** The kept lines mean what all the lines mean. */
  lemma {:induction false} KeptMeans(m: Meaning, lines: seq<string>)
    ensures MeanAll(m, KeptLines(lines, m.open.Some?)) == MeanAll(m, lines)
    decreases |lines|
  {
    hide ParseLine, Norm, Opened, Assigned;
    if lines != [] {
      var now := m.open.Some? || ParseLine(lines[0]).Section?;
      KeptMeans(Mean(m, lines[0]), lines[1..]);
      var rest := KeptLines(lines[1..], now);
      if IsKept(lines[0], now) {
        assert ([lines[0]] + rest)[1..] == rest;
      } else {
        assert [] + rest == rest;
      }
    }
  }
}
