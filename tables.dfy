/** The name-keyed tables the resolver and the info extractor fill in place
    (a `HashMap<String, _>` handed down by `&mut`), and the meaning of a
    sequence of insertions into one: the last write of a key wins. */
module Tables {

  /** One insertion: `key ↦ value`. */
  datatype Entry<V> = Entry(key: string, value: V)

  /** The map after inserting `ins` into `m`, in order. */
  function InsertAll<V>(m: map<string, V>, ins: seq<Entry<V>>): map<string, V>
    decreases |ins|
  {
    if ins == [] then m
    else InsertAll(m, ins[..|ins| - 1])[ins[|ins| - 1].key := ins[|ins| - 1].value]
  }

  /** Inserting two runs one after the other is inserting their concatenation. */
  lemma {:induction false} InsertAllAppend<V>(m: map<string, V>, a: seq<Entry<V>>, b: seq<Entry<V>>)
    ensures InsertAll(InsertAll(m, a), b) == InsertAll(m, a + b)
    decreases |b|
  {
    if b != [] {
      var b' := b[..|b| - 1];
      InsertAllAppend(m, a, b');
      assert (a + b)[..|a + b| - 1] == a + b';
    } else {
      assert a + b == a;
    }
  }

  /** The keys a run of insertions writes. */
  function InsertedKeys<V>(ins: seq<Entry<V>>): set<string>
    decreases |ins|
  {
    if ins == [] then {} else InsertedKeys(ins[..|ins| - 1]) + {ins[|ins| - 1].key}
  }

  lemma {:induction false} InsertedKeysAt<V>(ins: seq<Entry<V>>, i: nat)
    requires i < |ins|
    ensures ins[i].key in InsertedKeys(ins)
    decreases |ins|
  {
    if i < |ins| - 1 {
      InsertedKeysAt(ins[..|ins| - 1], i);
    }
  }

  /** Insertions only add keys: every key of `m` survives, and the new keys
      are exactly the inserted ones. */
  lemma {:induction false} InsertAllKeys<V>(m: map<string, V>, ins: seq<Entry<V>>)
    ensures InsertAll(m, ins).Keys == m.Keys + InsertedKeys(ins)
    decreases |ins|
  {
    if ins != [] {
      InsertAllKeys(m, ins[..|ins| - 1]);
    }
  }

  /** Last write wins: a key holds the value of its last insertion. */
  lemma {:induction false} InsertAllLastWins<V>(m: map<string, V>, ins: seq<Entry<V>>, i: nat)
    requires i < |ins|
    requires forall j :: i < j < |ins| ==> ins[j].key != ins[i].key
    ensures ins[i].key in InsertAll(m, ins) && InsertAll(m, ins)[ins[i].key] == ins[i].value
    decreases |ins|
  {
    if i < |ins| - 1 {
      InsertAllLastWins(m, ins[..|ins| - 1], i);
    }
  }

  /** A key no insertion writes keeps its value in `m`. */
  lemma {:induction false} InsertAllUntouched<V>(m: map<string, V>, ins: seq<Entry<V>>, k: string)
    requires k !in InsertedKeys(ins)
    ensures k in InsertAll(m, ins) <==> k in m
    ensures k in m ==> InsertAll(m, ins)[k] == m[k]
    decreases |ins|
  {
    if ins != [] {
      InsertAllUntouched(m, ins[..|ins| - 1], k);
    }
  }

  /** Every value in the result is an old value kept under its key or an
      inserted entry. */
  lemma {:induction false} InsertAllOrigin<V>(m: map<string, V>, ins: seq<Entry<V>>, k: string)
    requires k in InsertAll(m, ins)
    ensures (k in m && InsertAll(m, ins)[k] == m[k]) || Entry(k, InsertAll(m, ins)[k]) in ins
    decreases |ins|
  {
    if ins != [] {
      var ins' := ins[..|ins| - 1];
      var last := ins[|ins| - 1];
      if k != last.key {
        InsertAllOrigin(m, ins', k);
        if Entry(k, InsertAll(m, ins)[k]) in ins' {
          var i :| 0 <= i < |ins'| && ins'[i] == Entry(k, InsertAll(m, ins)[k]);
          assert ins[i] == ins'[i];
        }
      } else {
        assert ins[|ins| - 1] == Entry(k, InsertAll(m, ins)[k]);
      }
    }
  }

  /** A table the program fills in place by `insert`. */
  class Table<V> {
    var entries: map<string, V>

    /** `HashMap::new()`. */
    constructor ()
      ensures entries == map[]
    {
      entries := map[];
    }

    /** `HashMap::insert`: sets one key, overwriting any earlier value. */
    method Insert(key: string, value: V)
      modifies this
      ensures entries == old(entries)[key := value]
      // the same, as a one-element run: the form the insertion loops reason in
      ensures entries == InsertAll(old(entries), [Entry(key, value)])
    {
      entries := entries[key := value];
    }
  }
}
