/** The standard library's map with strings as keys, as the list of its entries in the order of the keys. */
module OrderedMap {
  import opened NameOrder

  datatype Entry<T> = Entry(name: string, value: T)

  function Plain(c: char): char {
    c
  }

  ghost predicate Increasing<T>(entries: seq<Entry<T>>) {
    forall i, j :: 0 <= i < j < |entries| ==> Below(entries[i].name, entries[j].name, Plain)
  }

  /** The index of a key, or the number of entries. */
  function Find<T>(entries: seq<Entry<T>>, name: string): (k: nat)
    ensures k <= |entries| && (k < |entries| ==> entries[k].name == name)
    ensures forall i :: 0 <= i < k ==> entries[i].name != name
  {
    if entries == [] || entries[0].name == name then 0 else 1 + Find(entries[1..], name)
  }

  function Insert<T>(entries: seq<Entry<T>>, e: Entry<T>): seq<Entry<T>> {
    if entries == [] || Below(e.name, entries[0].name, Plain) then [e] + entries
    else [entries[0]] + Insert(entries[1..], e)
  }

  /** A new key takes its place in the order. */
  lemma {:induction false} InsertFacts<T(!new)>(entries: seq<Entry<T>>, e: Entry<T>)
    requires Increasing(entries) && forall w :: w in entries ==> w.name != e.name
    ensures Increasing(Insert(entries, e)) && |Insert(entries, e)| == |entries| + 1
    ensures forall w :: w in Insert(entries, e) <==> w == e || w in entries
  {
    hide Compare;
    if entries == [] {
    } else if Below(e.name, entries[0].name, Plain) {
      forall w | w in entries
        ensures Below(e.name, w.name, Plain)
      {
        if w != entries[0] {
          CompareChain(e.name, entries[0].name, w.name, Plain);
        }
      }
    } else {
      var first, rest := entries[0], entries[1..];
      InsertFacts(rest, e);
      assert entries == [first] + rest;
      OrderOf(first.name, e.name);
      IncreasingCons(first, Insert(rest, e));
    }
  }

  lemma OrderOf(a: string, b: string)
    requires a != b && !Below(b, a, Plain)
    ensures Below(a, b, Plain)
  {
    CompareFlip(a, b, Plain);
    SameIs(a, b, Plain);
  }

  lemma IncreasingCons<T(!new)>(w: Entry<T>, rest: seq<Entry<T>>)
    requires Increasing(rest) && forall v :: v in rest ==> Below(w.name, v.name, Plain)
    ensures Increasing([w] + rest)
  {
    hide Compare;
  }

  lemma IncreasingDistinct<T>(entries: seq<Entry<T>>)
    requires Increasing(entries)
    ensures forall i, j :: 0 <= i < j < |entries| ==> entries[i].name != entries[j].name
  {
    hide Compare;
    forall i, j | 0 <= i < j < |entries|
      ensures entries[i].name != entries[j].name
    {
      CompareSelf(entries[i].name, Plain);
    }
  }

  /** A change of one value keeps the order. */
  lemma UpdateIncreasing<T>(entries: seq<Entry<T>>, k: nat, value: T)
    requires Increasing(entries) && k < |entries|
    ensures Increasing(entries[k := Entry(entries[k].name, value)])
  {
    hide Compare;
    var r := entries[k := Entry(entries[k].name, value)];
    assert forall i :: 0 <= i < |r| ==> r[i].name == entries[i].name;
  }

  /** Inserting a key and then changing its value is inserting it with that value. */
  lemma {:induction false} InsertThenUpdate<T>(entries: seq<Entry<T>>, name: string, v: T, w: T)
    requires forall i :: 0 <= i < |entries| ==> entries[i].name != name
    ensures var ins := Insert(entries, Entry(name, v));
            var k := Find(ins, name);
            k < |ins| && ins[k] == Entry(name, v) && ins[k := Entry(name, w)] == Insert(entries, Entry(name, w))
  {
    hide Below;
    var ins := Insert(entries, Entry(name, v));
    if entries != [] && !Below(name, entries[0].name, Plain) {
      InsertThenUpdate(entries[1..], name, v, w);
      assert ins[1..] == Insert(entries[1..], Entry(name, v));
      assert Find(ins, name) == 1 + Find(ins[1..], name);
    }
  }

  // ---------------------------------------------------------------- the map

  function AsMap<T>(entries: seq<Entry<T>>): map<string, T> {
    if entries == [] then map[] else AsMap(entries[1..])[entries[0].name := entries[0].value]
  }

  lemma {:induction false} FindIsLookup<T>(entries: seq<Entry<T>>, name: string)
    ensures name in AsMap(entries) <==> Find(entries, name) < |entries|
    ensures name in AsMap(entries) ==> AsMap(entries)[name] == entries[Find(entries, name)].value
  {
    if entries != [] {
      FindIsLookup(entries[1..], name);
    }
  }

  /** A new key is added to the map. */
  lemma {:induction false} InsertMap<T>(entries: seq<Entry<T>>, e: Entry<T>)
    requires Find(entries, e.name) == |entries|
    ensures AsMap(Insert(entries, e)) == AsMap(entries)[e.name := e.value]
  {
    hide Below;
    if entries == [] || Below(e.name, entries[0].name, Plain) {
      assert ([e] + entries)[1..] == entries;
    } else {
      var first, rest := entries[0], entries[1..];
      InsertMap(rest, e);
      assert ([first] + Insert(rest, e))[1..] == Insert(rest, e);
    }
  }

  /** The value of a key is changed, and no other. */
  lemma {:induction false} UpdateMap<T>(entries: seq<Entry<T>>, name: string, value: T)
    requires Find(entries, name) < |entries|
    ensures AsMap(entries[Find(entries, name) := Entry(name, value)]) == AsMap(entries)[name := value]
  {
    var k := Find(entries, name);
    var r := entries[k := Entry(name, value)];
    if k == 0 {
      assert r[1..] == entries[1..];
    } else {
      UpdateMap(entries[1..], name, value);
      assert r[1..] == entries[1..][k - 1 := Entry(name, value)];
    }
  }
}
