/** The host's `localStorage` as the facades use it: a string-to-string map
    together with a listing of its keys. The model lists keys in the order
    they were first created; no property here depends on that order. */
module LocalStore {
  import opened Outcomes

  datatype Store = Store(items: map<string, string>, order: seq<string>)

  /** No key is listed twice. */
  predicate Distinct(order: seq<string>)
  {
    forall i, j :: 0 <= i < j < |order| ==> order[i] != order[j]
  }

  /** Every stored key is listed exactly once, and only stored keys are listed. */
  predicate Valid(st: Store)
  {
    Distinct(st.order) &&
    (forall k :: k in st.items ==> k in st.order) &&
    (forall i :: 0 <= i < |st.order| ==> st.order[i] in st.items)
  }

  /** An empty store, as `clear()` leaves it. */
  function Empty(): (st: Store)
    ensures Valid(st) && |st.order| == 0 && st.items == map[]
  {
    Store(map[], [])
  }

  /** `getItem(k)`: the stored string, or `null` (here `None`). */
  function GetItem(st: Store, k: string): (r: Option<string>)
    ensures r.Some? <==> k in st.items
    ensures r.Some? ==> r.value == st.items[k]
  {
    if k in st.items then Some(st.items[k]) else None
  }

  /** `setItem(k, v)`: stores `v` under `k`; a new key is listed last, an
      existing key keeps its place. */
  function SetItem(st: Store, k: string, v: string): (r: Store)
    ensures r.items == st.items[k := v]
    ensures k in st.items ==> r.order == st.order
    ensures k !in st.items ==> r.order == st.order + [k]
  {
    Store(st.items[k := v], if k in st.items then st.order else st.order + [k])
  }

  /** The keys of `order` other than `k`, in order. */
  function Without(order: seq<string>, k: string): (r: seq<string>)
    ensures forall x :: x in r <==> x in order && x != k
    ensures |r| <= |order|
  {
    if |order| == 0 then []
    else if order[0] == k then Without(order[1..], k)
    else [order[0]] + Without(order[1..], k)
  }

  /** `removeItem(k)`: forgets `k` and its value; removing an absent key
      changes nothing. */
  function RemoveItem(st: Store, k: string): (r: Store)
    ensures r.items == st.items - {k}
    ensures forall x :: x in r.order <==> x in st.order && x != k
  {
    Store(st.items - {k}, Without(st.order, k))
  }

  /** The names of the properties of `Storage.prototype` and
      `Object.prototype`. */
  const PrototypeNames: set<string> :=
    {"length", "key", "getItem", "setItem", "removeItem", "clear", "constructor",
     "toString", "toLocaleString", "valueOf", "hasOwnProperty", "isPrototypeOf",
     "propertyIsEnumerable", "__proto__", "__defineGetter__", "__defineSetter__",
     "__lookupGetter__", "__lookupSetter__"}

  /** A stored key that a prototype property shadows. The named property
      visibility algorithm of Web IDL hides such a key from the object's own
      property names, although `getItem` still finds it. */
  predicate Shadowed(k: string)
  {
    k in PrototypeNames
  }

  /** The keys of `order` that are not shadowed, in order. */
  function Visible(order: seq<string>): (r: seq<string>)
    ensures forall x :: x in r <==> x in order && !Shadowed(x)
    ensures |r| <= |order|
    decreases |order|
  {
    if |order| == 0 then []
    else if Shadowed(order[0]) then Visible(order[1..])
    else [order[0]] + Visible(order[1..])
  }

  /** `Object.keys(localStorage)`: every stored key except the shadowed ones. */
  function Keys(st: Store): (r: seq<string>)
    ensures Valid(st) ==> forall k :: k in r <==> k in st.items && !Shadowed(k)
  {
    Visible(st.order)
  }

  /** `Without` keeps the remaining keys distinct. */
  lemma {:induction false} WithoutDistinct(order: seq<string>, k: string)
    requires Distinct(order)
    ensures Distinct(Without(order, k))
  {
    if |order| > 0 {
      var tail := order[1..];
      assert Distinct(tail) by {
        forall i, j | 0 <= i < j < |tail| ensures tail[i] != tail[j] {
          assert tail[i] == order[i + 1] && tail[j] == order[j + 1];
        }
      }
      WithoutDistinct(tail, k);
      var rest := Without(tail, k);
      if order[0] != k {
        var r := Without(order, k);
        assert r == [order[0]] + rest;
        assert order[0] !in tail by {
          forall m | 0 <= m < |tail| ensures tail[m] != order[0] {
            assert tail[m] == order[m + 1];
          }
        }
        assert order[0] !in rest;
        forall i, j | 0 <= i < j < |r| ensures r[i] != r[j] {
          if i == 0 {
            assert r[j] == rest[j - 1];
            assert rest[j - 1] in rest;
          } else {
            assert r[i] == rest[i - 1] && r[j] == rest[j - 1];
          }
        }
      }
    }
  }

  /** `setItem` keeps every key listed exactly once. */
  lemma {:induction false} SetItemValid(st: Store, k: string, v: string)
    requires Valid(st)
    ensures Valid(SetItem(st, k, v))
  {
    var r := SetItem(st, k, v);
    if k !in st.items {
      assert k !in st.order;
      forall i, j | 0 <= i < j < |r.order| ensures r.order[i] != r.order[j] {
        if j == |st.order| {
          assert r.order[i] == st.order[i];
          assert st.order[i] in st.order;
        } else {
          assert r.order[i] == st.order[i] && r.order[j] == st.order[j];
        }
      }
      forall i | 0 <= i < |r.order| ensures r.order[i] in r.items {
        if i < |st.order| {
          assert r.order[i] == st.order[i];
        }
      }
    }
  }

  /** `removeItem` keeps every key listed exactly once. */
  lemma {:induction false} RemoveItemValid(st: Store, k: string)
    requires Valid(st)
    ensures Valid(RemoveItem(st, k))
  {
    WithoutDistinct(st.order, k);
    var r := RemoveItem(st, k);
    forall i | 0 <= i < |r.order| ensures r.order[i] in r.items {
      var x := r.order[i];
      assert x in st.order && x != k;
      var j :| 0 <= j < |st.order| && st.order[j] == x;
    }
  }

  /** Reading back what was just written. */
  lemma {:induction false} GetSetSame(st: Store, k: string, v: string)
    ensures GetItem(SetItem(st, k, v), k) == Some(v)
  {
  }

  /** Writing one key leaves every other key's value as it was. */
  lemma {:induction false} GetSetOther(st: Store, k: string, v: string, k': string)
    requires k' != k
    ensures GetItem(SetItem(st, k, v), k') == GetItem(st, k')
  {
  }

  /** After `removeItem(k)`, `k` reads as absent and every other key as before. */
  lemma {:induction false} GetRemove(st: Store, k: string, k': string)
    ensures GetItem(RemoveItem(st, k), k') == if k' == k then None else GetItem(st, k')
  {
  }

  /** Removing another key leaves what was just written in place. */
  lemma {:induction false} RemoveOtherKeepsSet(st: Store, k: string, v: string, k': string)
    requires k' != k
    ensures GetItem(RemoveItem(SetItem(st, k, v), k'), k) == Some(v)
  {
    GetRemove(SetItem(st, k, v), k', k);
  }

  /** Removing a key that was just created gives back the store's contents,
      with the key list unchanged. */
  lemma {:induction false} RemoveUndoesSet(st: Store, k: string, v: string)
    requires Valid(st) && k !in st.items
    ensures RemoveItem(SetItem(st, k, v), k) == st
  {
    var r := RemoveItem(SetItem(st, k, v), k);
    assert k !in st.order;
    WithoutAbsent(st.order, k);
    WithoutAppended(st.order, k);
    assert r.order == st.order;
    RestoreMap(st.items, k, v);
    assert r.items == st.items;
  }

  lemma {:induction false} RestoreMap(m: map<string, string>, k: string, v: string)
    requires k !in m
    ensures m[k := v] - {k} == m
  {
  }

  lemma {:induction false} WithoutAbsent(order: seq<string>, k: string)
    requires k !in order
    ensures Without(order, k) == order
  {
    if |order| > 0 {
      WithoutAbsent(order[1..], k);
      assert [order[0]] + order[1..] == order;
    }
  }

  lemma {:induction false} WithoutAppended(order: seq<string>, k: string)
    ensures Without(order + [k], k) == Without(order, k)
  {
    if |order| == 0 {
      assert order + [k] == [k];
      assert ([k])[1..] == [];
    } else {
      WithoutAppended(order[1..], k);
      assert (order + [k])[1..] == order[1..] + [k];
    }
  }
}
