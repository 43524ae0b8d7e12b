/// The registry as an in-memory tree: each key carries the outcome the registry
/// API would give when it is opened, its subkeys in enumeration order and its values
/// in enumeration order, each with the outcomes of enumerating, reading and writing it.
module RegistryTree {

  /// The registry API's status codes that move_homedir.cpp distinguishes.
  datatype Status =
    | Success          // ERROR_SUCCESS
    | FileNotFound     // ERROR_FILE_NOT_FOUND
    | AccessDenied     // ERROR_ACCESS_DENIED
    | UnsupportedType  // ERROR_UNSUPPORTED_TYPE: the value is not a string
    | MoreData         // ERROR_MORE_DATA: a buffer was too small
    | OtherError(code: nat)

  /// A registry key: the outcome of opening it, then its subkeys and values.
  datatype Key = Key(open: Status, subkeys: seq<Subkey>, values: seq<Value>)

  /// A subkey slot: the outcome of enumerating it (`RegEnumKeyEx`), its name and the key.
  datatype Subkey = Subkey(enumStatus: Status, name: string, key: Key)

  /// A value slot: the outcome of enumerating it (`RegEnumValue`), its name, the outcome
  /// of reading it as a string (`RegGetValue` with `RRF_RT_REG_SZ`), its data, and the
  /// outcome a write-back (`RegSetValueEx`) would have.
  datatype Value = Value(enumStatus: Status, name: string, fetch: Status, data: string, writeStatus: Status)

  /// One attempted write-back: the key (as a path of subkey indices), the value index,
  /// the new data and the outcome of the write.
  datatype Write = Write(path: seq<nat>, index: nat, data: string, status: Status)

  /// `path` names a key of `t`: every step is a subkey index in range.
  predicate ValidPath(t: Key, path: seq<nat>)
    decreases path
  {
    path == [] || (path[0] < |t.subkeys| && ValidPath(t.subkeys[path[0]].key, path[1..]))
  }

  /// The key of `t` at `path`.
  function KeyAt(t: Key, path: seq<nat>): Key
    requires ValidPath(t, path)
    decreases path
  {
    if path == [] then t else KeyAt(t.subkeys[path[0]].key, path[1..])
  }

  /// `t` with the key at `path` replaced by `k`.
  function UpdateAt(t: Key, path: seq<nat>, k: Key): Key
    requires ValidPath(t, path)
    decreases path
  {
    if path == [] then k
    else
      var i := path[0];
      var sk := t.subkeys[i];
      t.(subkeys := t.subkeys[i := sk.(key := UpdateAt(sk.key, path[1..], k))])
  }

  /// `k` with the data of value `j` set to `data`.
  function SetData(k: Key, j: nat, data: string): (r: Key)
    requires j < |k.values|
    ensures r.open == k.open && r.subkeys == k.subkeys && |r.values| == |k.values|
    ensures r.values[j] == k.values[j].(data := data)
    ensures forall m :: 0 <= m < |k.values| && m != j ==> r.values[m] == k.values[m]
  {
    k.(values := k.values[j := k.values[j].(data := data)])
  }

  /// `k` with the key of subkey `i` replaced by `c`.
  function SetChild(k: Key, i: nat, c: Key): (r: Key)
    requires i < |k.subkeys|
    ensures r.open == k.open && r.values == k.values && |r.subkeys| == |k.subkeys|
    ensures r.subkeys[i].key == c && r.subkeys[i].enumStatus == k.subkeys[i].enumStatus
    ensures forall m :: 0 <= m < |k.subkeys| && m != i ==> r.subkeys[m] == k.subkeys[m]
  {
    k.(subkeys := k.subkeys[i := k.subkeys[i].(key := c)])
  }

  /// `ws` with `prefix` put in front of every path: writes of a subtree seen from above.
  function Nest(prefix: seq<nat>, ws: seq<Write>): (r: seq<Write>)
    ensures |r| == |ws|
    ensures forall m :: 0 <= m < |ws| ==>
      r[m] == ws[m].(path := prefix + ws[m].path)
  {
    seq(|ws|, m requires 0 <= m < |ws| => ws[m].(path := prefix + ws[m].path))
  }

  lemma NestAppend(prefix: seq<nat>, a: seq<Write>, b: seq<Write>)
    ensures Nest(prefix, a + b) == Nest(prefix, a) + Nest(prefix, b)
  {
  }

  lemma NestNest(p: seq<nat>, q: seq<nat>, ws: seq<Write>)
    ensures Nest(p, Nest(q, ws)) == Nest(p + q, ws)
  {
    forall m | 0 <= m < |ws| ensures Nest(p, Nest(q, ws))[m] == Nest(p + q, ws)[m] {
      assert p + (q + ws[m].path) == (p + q) + ws[m].path;
    }
  }

  /// A key's path extends by one subkey index in range.
  lemma {:induction false} ValidPathChild(t: Key, path: seq<nat>, i: nat)
    requires ValidPath(t, path) && i < |KeyAt(t, path).subkeys|
    ensures ValidPath(t, path + [i])
    ensures KeyAt(t, path + [i]) == KeyAt(t, path).subkeys[i].key
    decreases path
  {
    if path == [] {
      assert [i][1..] == [];
    } else {
      ValidPathChild(t.subkeys[path[0]].key, path[1..], i);
      assert (path + [i])[1..] == path[1..] + [i];
    }
  }

  /// Replacing a key by one with as many subkeys keeps every path through it valid,
  /// and the key found there afterwards is the new one.
  lemma {:induction false} UpdateAtFound(t: Key, path: seq<nat>, k: Key)
    requires ValidPath(t, path)
    ensures ValidPath(UpdateAt(t, path, k), path)
    ensures KeyAt(UpdateAt(t, path, k), path) == k
    decreases path
  {
    if path != [] {
      UpdateAtFound(t.subkeys[path[0]].key, path[1..], k);
    }
  }

  /// A second update at the same path overrides the first.
  lemma {:induction false} UpdateAtTwice(t: Key, path: seq<nat>, a: Key, b: Key)
    requires ValidPath(t, path)
    ensures ValidPath(UpdateAt(t, path, a), path)
    ensures UpdateAt(UpdateAt(t, path, a), path, b) == UpdateAt(t, path, b)
    decreases path
  {
    UpdateAtFound(t, path, a);
    if path != [] {
      UpdateAtTwice(t.subkeys[path[0]].key, path[1..], a, b);
    }
  }

  /// Updating a child of the key at `path` is updating that key with its child replaced.
  lemma {:induction false} UpdateAtChild(t: Key, path: seq<nat>, i: nat, c: Key)
    requires ValidPath(t, path) && i < |KeyAt(t, path).subkeys|
    ensures ValidPath(t, path + [i])
    ensures UpdateAt(t, path + [i], c) == UpdateAt(t, path, SetChild(KeyAt(t, path), i, c))
    decreases path
  {
    ValidPathChild(t, path, i);
    if path == [] {
      assert [i][1..] == [];
    } else {
      assert (path + [i])[1..] == path[1..] + [i];
      UpdateAtChild(t.subkeys[path[0]].key, path[1..], i, c);
    }
  }

  /// After replacing the key at `path` by `k`, its subkey `i` is `k`'s, and replacing
  /// that subkey's key by `c` is replacing the key at `path` by `k` with child `i` set to `c`.
  lemma UpdateWithin(t: Key, path: seq<nat>, k: Key, i: nat, c: Key)
    requires ValidPath(t, path) && i < |k.subkeys|
    ensures ValidPath(UpdateAt(t, path, k), path + [i])
    ensures KeyAt(UpdateAt(t, path, k), path + [i]) == k.subkeys[i].key
    ensures UpdateAt(UpdateAt(t, path, k), path + [i], c) == UpdateAt(t, path, SetChild(k, i, c))
  {
    var t' := UpdateAt(t, path, k);
    UpdateAtFound(t, path, k);
    ValidPathChild(t', path, i);
    UpdateAtChild(t', path, i, c);
    UpdateAtTwice(t, path, k, SetChild(k, i, c));
  }

  /// Putting back the key that is already there changes nothing.
  lemma {:induction false} UpdateAtSame(t: Key, path: seq<nat>)
    requires ValidPath(t, path)
    ensures UpdateAt(t, path, KeyAt(t, path)) == t
    decreases path
  {
    if path != [] {
      UpdateAtSame(t.subkeys[path[0]].key, path[1..]);
      assert t.subkeys[path[0] := t.subkeys[path[0]]] == t.subkeys;
    }
  }
}
