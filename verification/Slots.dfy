/** A fixed array of slots searched by key, as the map it stands for. The module's registry and the
    daemon's per-pid tables are both kept this way. */
module Slots {
  import opened Sets

  datatype Slot<K, V> = Slot(used: bool, key: K, value: V)

  ghost function Occupied<K, V>(s: seq<Slot<K, V>>): set<nat> {
    set i | 0 <= i < |s| && s[i].used
  }

  ghost function Keys<K, V>(s: seq<Slot<K, V>>): set<K> {
    set i | i in Occupied(s) :: s[i].key
  }

  /** No key sits in two slots. */
  ghost predicate Distinct<K, V>(s: seq<Slot<K, V>>) {
    forall i, j :: i in Occupied(s) && j in Occupied(s) && s[i].key == s[j].key ==> i == j
  }

  ghost function ValueOf<K, V>(s: seq<Slot<K, V>>, k: K): V
    requires k in Keys(s)
  {
    var i :| i in Occupied(s) && s[i].key == k;
    s[i].value
  }

  ghost function Entries<K, V>(s: seq<Slot<K, V>>): map<K, V> {
    map k | k in Keys(s) :: ValueOf(s, k)
  }

  lemma Present<K, V>(s: seq<Slot<K, V>>, i: nat)
    requires Distinct(s) && i < |s| && s[i].used
    ensures i in Occupied(s) && s[i].key in Keys(s) && s[i].key in Entries(s) && Entries(s)[s[i].key] == s[i].value
  {
  }

  lemma Absent<K, V>(s: seq<Slot<K, V>>, k: K)
    requires forall i :: 0 <= i < |s| && s[i].used ==> s[i].key != k
    ensures k !in Keys(s) && k !in Entries(s)
  {
  }

  lemma AllFree<K, V>(s: seq<Slot<K, V>>)
    requires forall i :: 0 <= i < |s| ==> !s[i].used
    ensures Distinct(s) && Occupied(s) == {} && Keys(s) == {} && Entries(s) == map[]
  {
  }

  lemma FillKeys<K, V>(s: seq<Slot<K, V>>, i: nat, k: K, v: V)
    requires Distinct(s) && i < |s|
    requires if s[i].used then s[i].key == k else k !in Keys(s)
    ensures var s' := s[i := Slot(true, k, v)];
            Distinct(s') && Occupied(s') == Occupied(s) + {i} && Keys(s') == Keys(s) + {k}
    ensures forall j :: j in Occupied(s) && j != i ==> s[j].key != k
  {
    var s' := s[i := Slot(true, k, v)];
    assert Occupied(s') == Occupied(s) + {i};
    assert s'[i].key == k;
    forall j | j in Occupied(s) && j != i ensures j in Occupied(s') && s'[j] == s[j] && s[j].key != k {
    }
  }

  /** Filling a free slot adds an entry; overwriting a slot with its own key changes one. */
  lemma Fill<K, V>(s: seq<Slot<K, V>>, i: nat, k: K, v: V)
    requires Distinct(s) && i < |s|
    requires if s[i].used then s[i].key == k else k !in Keys(s)
    ensures var s' := s[i := Slot(true, k, v)];
            && Distinct(s') && Occupied(s') == Occupied(s) + {i}
            && Keys(s') == Keys(s) + {k} && Entries(s') == Entries(s)[k := v]
  {
    hide Distinct;
    var s' := s[i := Slot(true, k, v)];
    FillKeys(s, i, k, v);
    forall x | x in Keys(s') ensures ValueOf(s', x) == Entries(s)[k := v][x] {
      var j :| j in Occupied(s') && s'[j].key == x;
      Present(s', j);
      if j != i {
        Present(s, j);
      }
    }
  }

  lemma Empty<K, V>(s: seq<Slot<K, V>>, i: nat)
    requires Distinct(s) && i < |s| && s[i].used
    ensures var s' := s[i := s[i].(used := false)];
            && Distinct(s') && Occupied(s') == Occupied(s) - {i}
            && Keys(s') == Keys(s) - {s[i].key} && Entries(s') == Entries(s) - {s[i].key}
  {
    var s' := s[i := s[i].(used := false)];
    assert Occupied(s') == Occupied(s) - {i};
    forall j | j in Occupied(s') ensures j in Occupied(s) && s'[j] == s[j] && s[j].key != s[i].key {
    }
    assert Distinct(s');
    assert Keys(s') == Keys(s) - {s[i].key};
    forall x | x in Keys(s') ensures ValueOf(s', x) == Entries(s)[x] {
      var j :| j in Occupied(s') && s'[j].key == x;
      Present(s', j);
      Present(s, j);
    }
  }

  lemma {:induction false} ImageSize<K, V>(s: seq<Slot<K, V>>, on: set<nat>)
    requires Distinct(s) && on <= Occupied(s)
    ensures |set i | i in on :: s[i].key| == |on|
  {
    if on != {} {
      var k :| k in on;
      ImageSize(s, on - {k});
      var rest := set i | i in on - {k} :: s[i].key;
      assert (set i | i in on :: s[i].key) == rest + {s[k].key};
      assert s[k].key !in rest;
    }
  }

  lemma OccupiedSize<K, V>(s: seq<Slot<K, V>>)
    ensures |Occupied(s)| <= |s|
    ensures |Occupied(s)| == |s| <==> forall i :: 0 <= i < |s| ==> s[i].used
  {
    var all := Below(|s|);
    assert Occupied(s) <= all;
    var free := all - Occupied(s);
    assert all == Occupied(s) + free;
    if i :| 0 <= i < |s| && !s[i].used {
      assert i in free;
    }
  }

  /** One slot per key, so the array is full exactly when it stands for as many entries as it has slots. */
  lemma Size<K, V>(s: seq<Slot<K, V>>)
    requires Distinct(s)
    ensures |Entries(s)| == |Keys(s)| == |Occupied(s)| <= |s|
    ensures |Entries(s)| == |s| <==> forall i :: 0 <= i < |s| ==> s[i].used
  {
    OccupiedSize(s);
    ImageSize(s, Occupied(s));
    assert Entries(s).Keys == Keys(s);
  }
}
