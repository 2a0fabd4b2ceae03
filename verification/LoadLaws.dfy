/** What a built heap and repeated declarations amount to. */
module LoadLaws {
  import opened Basics
  import opened Model
  import opened Container
  import Heap

  /** The last entry of a key decides its value ... */
  lemma {:induction false} MetaLastWins(meta: map<U32, U32>, entries: seq<MetaEntry>, i: nat)
    requires i < |entries| && forall j :: i < j < |entries| ==> entries[j].key != entries[i].key
    ensures var r := MetaOnto(meta, entries); entries[i].key in r && r[entries[i].key] == entries[i].value
    decreases |entries|
  {
    var first, rest := entries[0], entries[1..];
    if i == 0 {
      forall j: nat | j < |rest| ensures rest[j].key != first.key {
        assert rest[j] == entries[j + 1];
      }
      MetaOthersStay(meta[first.key := first.value], rest, first.key);
    } else {
      forall j | i - 1 < j < |rest| ensures rest[j].key != rest[i - 1].key {
        assert rest[j] == entries[j + 1];
      }
      MetaLastWins(meta[first.key := first.value], rest, i - 1);
    }
  }

  /** ... and a key without one keeps what it had. */
  lemma {:induction false} MetaOthersStay(meta: map<U32, U32>, entries: seq<MetaEntry>, key: U32)
    requires forall i: nat :: i < |entries| ==> entries[i].key != key
    ensures var r := MetaOnto(meta, entries); (key in r <==> key in meta) && (key in r ==> r[key] == meta[key])
    decreases |entries|
  {
    if entries != [] {
      MetaOthersStay(meta[entries[0].key := entries[0].value], entries[1..], key);
    }
  }

  /** The last declared value of a field is the node's ... */
  lemma {:induction false} FieldsLastWins(fields: map<U32, Value>, fvs: seq<Heap.FieldValue>, i: nat)
    requires i < |fvs| && forall j :: i < j < |fvs| ==> fvs[j].field != fvs[i].field
    ensures var r := Heap.FieldsOnto(fields, fvs); fvs[i].field in r && r[fvs[i].field] == fvs[i].value
    decreases |fvs|
  {
    var first, rest := fvs[0], fvs[1..];
    if i == 0 {
      forall j: nat | j < |rest| ensures rest[j].field != first.field {
        assert rest[j] == fvs[j + 1];
      }
      FieldsOthersStay(fields[first.field := first.value], rest, first.field);
    } else {
      forall j | i - 1 < j < |rest| ensures rest[j].field != rest[i - 1].field {
        assert rest[j] == fvs[j + 1];
      }
      FieldsLastWins(fields[first.field := first.value], rest, i - 1);
    }
  }

  /** ... and an undeclared one is as before. */
  lemma {:induction false} FieldsOthersStay(fields: map<U32, Value>, fvs: seq<Heap.FieldValue>, f: U32)
    requires forall i: nat :: i < |fvs| ==> fvs[i].field != f
    ensures var r := Heap.FieldsOnto(fields, fvs); (f in r <==> f in fields) && (f in r ==> r[f] == fields[f])
    decreases |fvs|
  {
    if fvs != [] {
      FieldsOthersStay(fields[fvs[0].field := fvs[0].value], fvs[1..], f);
    }
  }

  /** Heap node k is live, defined, numbered k, of the declared kind and name,
      without edges. */
  lemma {:induction false} BuiltAllLaw(id: nat, nodes: seq<Heap.HeapNode>, k: nat)
    requires k < |nodes|
    ensures Heap.BuiltAll(id, nodes)[k]
         == Node(id + k, nodes[k].kind, nodes[k].name, true, false, 0, Heap.FieldsOnto(map[], nodes[k].fields), [], [])
    decreases |nodes|
  {
    if k > 0 {
      BuiltAllLaw(id + 1, nodes[1..], k - 1);
    }
  }
}
