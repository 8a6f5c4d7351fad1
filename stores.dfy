/**
 * The two keyed stores of the keeper, seen as maps from account address to
 * record, and the address codec at their boundary. Import and export are
 * written once, generically in the record type: a record names its recipient
 * through `recipient`, and export rebuilds a record under a new recipient
 * string through `relabel`.
 */
module Stores {
  import opened Wrappers

  /** An `sdk.AccAddress`: raw address bytes, the stores' key. */
  type Address = seq<bv8>

  /** The account address codec: `StringToBytes` may fail; `String` always succeeds. */
  datatype AddressCodec = AddressCodec(decode: string -> Option<Address>, encode: Address -> string)

  /**
   * Decoding the encoding of each of `keys` gives that key back. The account
   * codec does not do this for every byte string (the empty address encodes to
   * a string it refuses), so it is stated only for the keys at hand.
   */
  ghost predicate KeysRoundTrip(codec: AddressCodec, keys: set<Address>) {
    forall k :: k in keys ==> codec.decode(codec.encode(k)) == Some(k)
  }

  /** `s` decodes, and it is the codec's own spelling of the address it decodes to. */
  predicate Canonical(codec: AddressCodec, s: string) {
    match codec.decode(s)
    case None => false
    case Some(a) => codec.encode(a) == s
  }

  /** `relabel` sets the recipient and, given a record's own recipient, changes nothing. */
  ghost predicate RecordLaws<R(!new)>(recipient: R -> string, relabel: (R, string) -> R) {
    && (forall r, s :: recipient(relabel(r, s)) == s)
    && (forall r :: relabel(r, recipient(r)) == r)
  }

  /** Every entry's recipient decodes. */
  ghost predicate AllDecode<R>(codec: AddressCodec, entries: seq<R>, recipient: R -> string) {
    forall x :: x in entries ==> codec.decode(recipient(x)).Some?
  }

  /** No two entries decode to the same address. */
  ghost predicate DistinctAddresses<R>(codec: AddressCodec, entries: seq<R>, recipient: R -> string) {
    forall i, j :: 0 <= i < j < |entries| ==> codec.decode(recipient(entries[i])) != codec.decode(recipient(entries[j]))
  }

  /** Entry `i` is the last one written under key `k`. */
  ghost predicate LastWriter<R>(codec: AddressCodec, entries: seq<R>, recipient: R -> string, k: Address, i: int)
    requires 0 <= i < |entries|
  {
    codec.decode(recipient(entries[i])) == Some(k) &&
    forall j :: i < j < |entries| ==> codec.decode(recipient(entries[j])) != Some(k)
  }

  /** The addresses the entries decode to. */
  ghost function Addresses<R>(codec: AddressCodec, entries: seq<R>, recipient: R -> string): set<Address>
    requires AllDecode(codec, entries, recipient)
  {
    set x | x in entries :: codec.decode(recipient(x)).value
  }

  /** Writing each entry in turn into `store` under its decoded recipient (`Set`, one per entry). */
  ghost function Put<R>(codec: AddressCodec, store: map<Address, R>, entries: seq<R>, recipient: R -> string): (r: map<Address, R>)
    requires AllDecode(codec, entries, recipient)
    ensures r.Keys == store.Keys + Addresses(codec, entries, recipient)
    decreases |entries|
  {
    if entries == [] then store
    else
      var n := |entries| - 1;
      assert entries == entries[..n] + [entries[n]];
      assert Addresses(codec, entries, recipient) ==
        Addresses(codec, entries[..n], recipient) + {codec.decode(recipient(entries[n])).value};
      var last := entries[|entries| - 1];
      Put(codec, store, entries[..|entries| - 1], recipient)[codec.decode(recipient(last)).value := last]
  }

  /** The entries whose store write succeeded: `fails[i]` says the i-th write failed. */
  function Kept<R>(entries: seq<R>, fails: seq<bool>): (r: seq<R>)
    requires |fails| == |entries|
    ensures |r| <= |entries|
    ensures forall x :: x in r ==> x in entries
    ensures forall i :: 0 <= i < |entries| && !fails[i] ==> entries[i] in r
    ensures forall x :: x in r ==> exists i :: 0 <= i < |entries| && !fails[i] && entries[i] == x
    ensures (forall i :: 0 <= i < |fails| ==> !fails[i]) ==> r == entries
    ensures (forall i :: 0 <= i < |fails| ==> fails[i]) ==> r == []
    decreases |entries|
  {
    if entries == [] then []
    else
      var n := |entries| - 1;
      var init := Kept(entries[..n], fails[..n]);
      assert entries == entries[..n] + [entries[n]];
      if fails[n] then init else init + [entries[n]]
  }

  /**
   * After the writes, a key holds the last entry written under it; a key no
   * entry decodes to keeps what the store held. The keys are the old keys and
   * the decoded addresses.
   */
  lemma {:induction false} PutLookup<R>(codec: AddressCodec, store: map<Address, R>, entries: seq<R>, recipient: R -> string, k: Address)
    requires AllDecode(codec, entries, recipient)
    ensures Put(codec, store, entries, recipient).Keys == store.Keys + Addresses(codec, entries, recipient)
    ensures (forall i :: 0 <= i < |entries| ==> codec.decode(recipient(entries[i])) != Some(k)) ==>
      (k in Put(codec, store, entries, recipient) <==> k in store) &&
      (k in store ==> Put(codec, store, entries, recipient)[k] == store[k])
    ensures forall i :: 0 <= i < |entries| && LastWriter(codec, entries, recipient, k, i) ==>
      k in Put(codec, store, entries, recipient) && Put(codec, store, entries, recipient)[k] == entries[i]
    decreases |entries|
  {
    if entries != [] {
      var n := |entries| - 1;
      var init := entries[..n];
      assert entries == init + [entries[n]];
      assert AllDecode(codec, init, recipient);
      PutLookup(codec, store, init, recipient, k);
      assert Addresses(codec, entries, recipient) == Addresses(codec, init, recipient) + {codec.decode(recipient(entries[n])).value};
      forall i | 0 <= i < |entries| && LastWriter(codec, entries, recipient, k, i)
        ensures k in Put(codec, store, entries, recipient) && Put(codec, store, entries, recipient)[k] == entries[i]
      {
        if i < n {
          assert init[i] == entries[i];
          assert LastWriter(codec, init, recipient, k, i);
        }
      }
    }
  }

  /** The enumeration a store walk produces: each key of `keys` exactly once. */
  ghost predicate WalkOrder(order: seq<Address>, keys: set<Address>) {
    (forall i, j :: 0 <= i < j < |order| ==> order[i] != order[j]) &&
    (forall k :: k in order <==> k in keys)
  }

  /** A walk visits as many keys as the store holds. */
  lemma {:induction false} WalkOrderLength(order: seq<Address>, keys: set<Address>)
    requires WalkOrder(order, keys)
    ensures |order| == |keys|
    decreases |order|
  {
    if order != [] {
      var n := |order| - 1;
      var init := order[..n];
      assert order == init + [order[n]];
      assert order[n] !in init;
      WalkOrderLength(init, keys - {order[n]});
    }
  }

  /**
   * The export walk: for each key in walk order, append the stored record
   * rebuilt under the key's encoded address.
   */
  function Export<R>(codec: AddressCodec, store: map<Address, R>, order: seq<Address>, relabel: (R, string) -> R): (r: seq<R>)
    requires forall k :: k in order ==> k in store
    ensures |r| == |order|
    ensures forall i :: 0 <= i < |order| ==> r[i] == relabel(store[order[i]], codec.encode(order[i]))
    decreases |order|
  {
    if order == [] then []
    else
      var n := |order| - 1;
      assert order == order[..n] + [order[n]];
      Export(codec, store, order[..n], relabel) + [relabel(store[order[n]], codec.encode(order[n]))]
  }

  /** The store each key of `store` would hold after export: its record under its encoded address. */
  ghost function Relabelled<R>(codec: AddressCodec, store: map<Address, R>, relabel: (R, string) -> R): map<Address, R> {
    map k | k in store :: relabel(store[k], codec.encode(k))
  }

  /** Each exported record's recipient decodes to the key it was exported from. */
  lemma ExportDecodes<R(!new)>(codec: AddressCodec, store: map<Address, R>, order: seq<Address>,
                               recipient: R -> string, relabel: (R, string) -> R)
    requires KeysRoundTrip(codec, store.Keys) && RecordLaws(recipient, relabel)
    requires forall k :: k in order ==> k in store
    ensures forall i :: 0 <= i < |order| ==>
      codec.decode(recipient(Export(codec, store, order, relabel)[i])) == Some(order[i])
    ensures AllDecode(codec, Export(codec, store, order, relabel), recipient)
  {
    var e := Export(codec, store, order, relabel);
    forall i | 0 <= i < |order| ensures codec.decode(recipient(e[i])) == Some(order[i]) {
      assert order[i] in store.Keys;
    }
    forall x | x in e ensures codec.decode(recipient(x)).Some? {
      var i :| 0 <= i < |e| && e[i] == x;
    }
  }

  /** The keys of `store` a walk has visited so far, each holding its record under its encoded address. */
  ghost function Walked<R>(codec: AddressCodec, store: map<Address, R>, order: seq<Address>, relabel: (R, string) -> R)
    : map<Address, R>
  {
    map k | k in store && k in order :: relabel(store[k], codec.encode(k))
  }

  /** One more step of the walk adds one more key. */
  lemma WalkedStep<R>(codec: AddressCodec, store: map<Address, R>, order: seq<Address>, relabel: (R, string) -> R)
    requires order != [] && order[|order| - 1] in store
    ensures var last := order[|order| - 1];
      Walked(codec, store, order, relabel) ==
        Walked(codec, store, order[..|order| - 1], relabel)[last := relabel(store[last], codec.encode(last))]
  {
    assert order == order[..|order| - 1] + [order[|order| - 1]];
  }

  /** Writing one more entry updates the key it decodes to. */
  lemma PutStep<R>(codec: AddressCodec, store: map<Address, R>, entries: seq<R>, recipient: R -> string)
    requires entries != [] && AllDecode(codec, entries, recipient)
    ensures AllDecode(codec, entries[..|entries| - 1], recipient)
    ensures var last := entries[|entries| - 1];
      Put(codec, store, entries, recipient) ==
        Put(codec, store, entries[..|entries| - 1], recipient)[codec.decode(recipient(last)).value := last]
  {
    assert entries == entries[..|entries| - 1] + [entries[|entries| - 1]];
  }

  /** Export of a prefix of the walk, then re-import, rebuilds the walked keys. */
  lemma {:induction false} ExportThenPutPrefix<R(!new)>(codec: AddressCodec, store: map<Address, R>, order: seq<Address>,
                                                 recipient: R -> string, relabel: (R, string) -> R)
    requires KeysRoundTrip(codec, store.Keys) && RecordLaws(recipient, relabel)
    requires forall k :: k in order ==> k in store
    ensures AllDecode(codec, Export(codec, store, order, relabel), recipient)
    ensures Put(codec, map[], Export(codec, store, order, relabel), recipient) == Walked(codec, store, order, relabel)
    decreases |order|
  {
    ExportDecodes(codec, store, order, recipient, relabel);
    if order != [] {
      var e := Export(codec, store, order, relabel);
      var n := |order| - 1;
      var init := order[..n];
      assert e[..n] == Export(codec, store, init, relabel);
      PutStep(codec, map[], e, recipient);
      ExportThenPutPrefix(codec, store, init, recipient, relabel);
      WalkedStep(codec, store, order, relabel);
    }
  }

  /**
   * Round trip from the store: when its keys decode back from their encoding,
   * exporting it in any walk order and writing the exported records into an
   * empty store rebuilds it, each record carrying its key's encoded address as
   * recipient.
   */
  lemma ExportThenPut<R(!new)>(codec: AddressCodec, store: map<Address, R>, order: seq<Address>,
                         recipient: R -> string, relabel: (R, string) -> R)
    requires KeysRoundTrip(codec, store.Keys) && RecordLaws(recipient, relabel)
    requires WalkOrder(order, store.Keys)
    ensures AllDecode(codec, Export(codec, store, order, relabel), recipient)
    ensures Put(codec, map[], Export(codec, store, order, relabel), recipient) == Relabelled(codec, store, relabel)
    ensures (forall k :: k in store ==> recipient(store[k]) == codec.encode(k)) ==>
      Put(codec, map[], Export(codec, store, order, relabel), recipient) == store
  {
    var e := Export(codec, store, order, relabel);
    var rebuilt := Relabelled(codec, store, relabel);
    assert AllDecode(codec, e, recipient) && Put(codec, map[], e, recipient) == rebuilt by {
      ExportThenPutPrefix(codec, store, order, recipient, relabel);
      assert Walked(codec, store, order, relabel).Keys == rebuilt.Keys;
    }
    if forall k :: k in store ==> recipient(store[k]) == codec.encode(k) {
      RelabelledCanonical(codec, store, recipient, relabel);
    }
  }

  /** A stored key whose encoding the codec refuses leaves an exported record that does not decode. */
  lemma ExportRefused<R(!new)>(codec: AddressCodec, store: map<Address, R>, order: seq<Address>,
                               recipient: R -> string, relabel: (R, string) -> R, key: Address)
    requires RecordLaws(recipient, relabel) && WalkOrder(order, store.Keys)
    requires key in store && codec.decode(codec.encode(key)).None?
    ensures !AllDecode(codec, Export(codec, store, order, relabel), recipient)
  {
    var e := Export(codec, store, order, relabel);
    assert key in order;
    var i :| 0 <= i < |order| && order[i] == key;
    assert e[i] in e && recipient(e[i]) == codec.encode(key);
  }

  /** Relabelling a store whose records already carry their key's encoded address changes nothing. */
  lemma RelabelledCanonical<R(!new)>(codec: AddressCodec, store: map<Address, R>,
                                     recipient: R -> string, relabel: (R, string) -> R)
    requires RecordLaws(recipient, relabel)
    requires forall k :: k in store ==> recipient(store[k]) == codec.encode(k)
    ensures Relabelled(codec, store, relabel) == store
  {
    var rebuilt := Relabelled(codec, store, relabel);
    forall k | k in store ensures rebuilt[k] == store[k] {
      assert relabel(store[k], recipient(store[k])) == store[k];
    }
  }

  /** A sequence without repetitions holds each element once. */
  lemma {:induction false} DistinctCount<T>(s: seq<T>, x: T)
    requires forall i, j :: 0 <= i < j < |s| ==> s[i] != s[j]
    ensures multiset(s)[x] == if x in s then 1 else 0
    decreases |s|
  {
    if s != [] {
      var n := |s| - 1;
      assert s == s[..n] + [s[n]];
      assert s[n] !in s[..n];
      DistinctCount(s[..n], x);
    }
  }

  /** With distinct addresses, each entry is what its address holds after the writes into an empty store. */
  lemma PutDistinctHolds<R>(codec: AddressCodec, entries: seq<R>, recipient: R -> string, i: int)
    requires DistinctAddresses(codec, entries, recipient) && AllDecode(codec, entries, recipient)
    requires 0 <= i < |entries|
    ensures codec.decode(recipient(entries[i])).value in Put(codec, map[], entries, recipient)
    ensures Put(codec, map[], entries, recipient)[codec.decode(recipient(entries[i])).value] == entries[i]
  {
    var a := codec.decode(recipient(entries[i])).value;
    PutLookup(codec, map[], entries, recipient, a);
    assert LastWriter(codec, entries, recipient, a, i);
  }

  /** Each record the export of such a store yields is an unchanged entry, written under the walked key. */
  lemma ExportedIsEntry<R(!new)>(codec: AddressCodec, entries: seq<R>, order: seq<Address>,
                                 recipient: R -> string, relabel: (R, string) -> R, p: int)
    requires RecordLaws(recipient, relabel)
    requires forall x :: x in entries ==> Canonical(codec, recipient(x))
    requires DistinctAddresses(codec, entries, recipient) && AllDecode(codec, entries, recipient)
    requires WalkOrder(order, Put(codec, map[], entries, recipient).Keys)
    requires 0 <= p < |order|
    ensures Export(codec, Put(codec, map[], entries, recipient), order, relabel)[p] in entries
    ensures codec.decode(recipient(Export(codec, Put(codec, map[], entries, recipient), order, relabel)[p])) == Some(order[p])
  {
    var store := Put(codec, map[], entries, recipient);
    var k := order[p];
    PutLookup(codec, map[], entries, recipient, k);
    assert k in Addresses(codec, entries, recipient);
    var x :| x in entries && codec.decode(recipient(x)).value == k;
    var i :| 0 <= i < |entries| && entries[i] == x;
    PutDistinctHolds(codec, entries, recipient, i);
    assert codec.encode(k) == recipient(x);
    assert Export(codec, store, order, relabel)[p] == relabel(x, recipient(x));
  }

  /** Each entry appears in the export of the store it was written into. */
  lemma EntryIsExported<R(!new)>(codec: AddressCodec, entries: seq<R>, order: seq<Address>,
                                 recipient: R -> string, relabel: (R, string) -> R, i: int)
    requires RecordLaws(recipient, relabel)
    requires forall x :: x in entries ==> Canonical(codec, recipient(x))
    requires DistinctAddresses(codec, entries, recipient) && AllDecode(codec, entries, recipient)
    requires WalkOrder(order, Put(codec, map[], entries, recipient).Keys)
    requires 0 <= i < |entries|
    ensures entries[i] in Export(codec, Put(codec, map[], entries, recipient), order, relabel)
  {
    var store := Put(codec, map[], entries, recipient);
    var e := Export(codec, store, order, relabel);
    var a := codec.decode(recipient(entries[i])).value;
    PutDistinctHolds(codec, entries, recipient, i);
    var p :| 0 <= p < |order| && order[p] == a;
    assert codec.encode(a) == recipient(entries[i]);
    assert e[p] == entries[i];
  }

  /**
   * Round trip from the records: writing entries with distinct, canonical
   * recipients into an empty store and exporting it in any walk order gives
   * back the same records, as a multiset.
   */
  lemma PutThenExport<R(!new)>(codec: AddressCodec, entries: seq<R>, order: seq<Address>,
                               recipient: R -> string, relabel: (R, string) -> R)
    requires RecordLaws(recipient, relabel)
    requires forall x :: x in entries ==> Canonical(codec, recipient(x))
    requires DistinctAddresses(codec, entries, recipient)
    requires AllDecode(codec, entries, recipient)
    requires WalkOrder(order, Put(codec, map[], entries, recipient).Keys)
    ensures multiset(Export(codec, Put(codec, map[], entries, recipient), order, relabel)) == multiset(entries)
  {
    var e := Export(codec, Put(codec, map[], entries, recipient), order, relabel);
    forall p | 0 <= p < |e| ensures e[p] in entries && codec.decode(recipient(e[p])) == Some(order[p]) {
      ExportedIsEntry(codec, entries, order, recipient, relabel, p);
    }
    forall i | 0 <= i < |entries| ensures entries[i] in e {
      EntryIsExported(codec, entries, order, recipient, relabel, i);
    }
    forall i, j | 0 <= i < j < |entries| ensures entries[i] != entries[j] {
      assert codec.decode(recipient(entries[i])) != codec.decode(recipient(entries[j]));
    }
    forall p, q | 0 <= p < q < |e| ensures e[p] != e[q] {
      assert order[p] != order[q];
    }
    forall x ensures multiset(e)[x] == multiset(entries)[x] {
      DistinctCount(e, x);
      DistinctCount(entries, x);
    }
  }
}
