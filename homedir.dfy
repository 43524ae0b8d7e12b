/// The program itself: the registry as the Win32 API presents it (handles to keys,
/// enumeration and reads by index, in-place writes), the `RegKey` wrapper and `iter`,
/// proved to do what `WalkSpec.Walk` says.
module MoveHomedir {
  import opened StringReplace
  import opened RegistryTree
  import opened WalkSpec

  /// One registry hive behind the Win32 registry calls `iter` makes. Keys are named by
  /// their path of subkey indices from the hive root; `openKeys` holds one entry per
  /// handle currently open, and `log` every `RegSetValueEx` call made so far.
  class Registry {
    var hive: Key
    var openKeys: multiset<seq<nat>>
    ghost var log: seq<Write>

    constructor(hive: Key)
      ensures this.hive == hive && openKeys == multiset{} && log == []
    {
      this.hive := hive;
      openKeys := multiset{};
      log := [];
    }

    /// `RegOpenKeyEx`: the outcome of opening the key at `path`; a successful open
    /// holds a handle to it.
    method OpenKey(path: seq<nat>) returns (status: Status)
      requires ValidPath(hive, path)
      requires path == [] || path[..|path| - 1] in openKeys
      modifies this
      ensures hive == old(hive) && log == old(log)
      ensures status == KeyAt(hive, path).open
      ensures openKeys == if status == Success then old(openKeys) + multiset{path} else old(openKeys)
    {
      status := KeyAt(hive, path).open;
      if status == Success {
        openKeys := openKeys + multiset{path};
      }
    }

    /// `RegQueryInfoKey`, for the two counts `iter` uses.
    method QueryInfoKey(path: seq<nat>) returns (subkeyCount: nat, valueCount: nat)
      requires ValidPath(hive, path) && path in openKeys
      ensures subkeyCount == |KeyAt(hive, path).subkeys| && valueCount == |KeyAt(hive, path).values|
    {
      var k := KeyAt(hive, path);
      subkeyCount, valueCount := |k.subkeys|, |k.values|;
    }

    /// `RegEnumKeyEx`: the outcome of enumerating subkey `i` and its name.
    method EnumKey(path: seq<nat>, i: nat) returns (status: Status, name: string)
      requires ValidPath(hive, path) && path in openKeys && i < |KeyAt(hive, path).subkeys|
      ensures status == KeyAt(hive, path).subkeys[i].enumStatus
      ensures name == KeyAt(hive, path).subkeys[i].name
    {
      var sk := KeyAt(hive, path).subkeys[i];
      status, name := sk.enumStatus, sk.name;
    }

    /// `RegEnumValue`: the outcome of enumerating value `j` and its name.
    method EnumValue(path: seq<nat>, j: nat) returns (status: Status, name: string)
      requires ValidPath(hive, path) && path in openKeys && j < |KeyAt(hive, path).values|
      ensures status == KeyAt(hive, path).values[j].enumStatus
      ensures name == KeyAt(hive, path).values[j].name
    {
      var v := KeyAt(hive, path).values[j];
      status, name := v.enumStatus, v.name;
    }

    /// `RegGetValue` restricted to string values: the outcome and the buffer contents.
    method GetValue(path: seq<nat>, j: nat) returns (status: Status, data: string)
      requires ValidPath(hive, path) && path in openKeys && j < |KeyAt(hive, path).values|
      ensures status == KeyAt(hive, path).values[j].fetch
      ensures data == KeyAt(hive, path).values[j].data
    {
      var v := KeyAt(hive, path).values[j];
      status, data := v.fetch, v.data;
    }

    /// `RegSetValueEx`: overwrite value `j` of the key at `path` with `data`. The call
    /// is logged whatever its outcome; only a successful one changes the hive.
    method SetValue(path: seq<nat>, j: nat, data: string) returns (status: Status)
      requires ValidPath(hive, path) && path in openKeys && j < |KeyAt(hive, path).values|
      modifies this
      ensures status == KeyAt(old(hive), path).values[j].writeStatus
      ensures hive == if status == Success
                      then UpdateAt(old(hive), path, SetData(KeyAt(old(hive), path), j, data))
                      else old(hive)
      ensures log == old(log) + [Write(path, j, data, status)]
      ensures openKeys == old(openKeys)
    {
      var k := KeyAt(hive, path);
      status := k.values[j].writeStatus;
      if status == Success {
        hive := UpdateAt(hive, path, SetData(k, j, data));
      }
      log := log + [Write(path, j, data, status)];
    }

    /// `RegCloseKey`: release one handle to the key at `path`.
    method CloseKey(path: seq<nat>)
      requires path in openKeys
      modifies this
      ensures openKeys == old(openKeys) - multiset{path}
      ensures hive == old(hive) && log == old(log)
    {
      openKeys := openKeys - multiset{path};
    }
  }

  /// A key opened under its parent: the outcome of the open and, when it succeeded,
  /// the subkey and value counts read right after. `node` is the key as it was when
  /// opened.
  class RegKey {
    const registry: Registry
    const path: seq<nat>
    const name: string
    const depth: int
    const errorCode: Status
    const isValidb: bool
    const subkeyCount: nat
    const valueCount: nat
    ghost const node: Key

    /// What the constructor establishes: the key is valid exactly when the open
    /// succeeded, and a valid key knows how many subkeys and values it has.
    ghost predicate Valid()
    {
      errorCode == node.open &&
      (isValidb <==> errorCode == Success) &&
      (isValidb ==> subkeyCount == |node.subkeys| && valueCount == |node.values|)
    }

    /// Opens the key at `path`; on success it holds a handle and its counts.
    constructor(registry: Registry, path: seq<nat>, name: string, depth: int)
      requires ValidPath(registry.hive, path)
      requires path == [] || path[..|path| - 1] in registry.openKeys
      modifies registry
      ensures this.registry == registry && this.path == path && this.name == name && this.depth == depth
      ensures registry.hive == old(registry.hive) && registry.log == old(registry.log)
      ensures node == KeyAt(registry.hive, path) && Valid()
      ensures registry.openKeys ==
        if isValidb then old(registry.openKeys) + multiset{path} else old(registry.openKeys)
    {
      this.registry := registry;
      this.path := path;
      this.name := name;
      this.depth := depth;
      node := KeyAt(registry.hive, path);
      var status := registry.OpenKey(path);
      errorCode := status;
      isValidb := status == Success;
      if status == Success {
        var s, v := registry.QueryInfoKey(path);
        subkeyCount, valueCount := s, v;
      } else {
        subkeyCount, valueCount := 0, 0;
      }
    }

    /// The destructor: releases the handle if the open succeeded.
    method Close()
      requires isValidb ==> path in registry.openKeys
      modifies registry
      ensures registry.openKeys ==
        if isValidb then old(registry.openKeys) - multiset{path} else old(registry.openKeys)
      ensures registry.hive == old(registry.hive) && registry.log == old(registry.log)
    {
      if isValidb {
        registry.CloseKey(path);
      }
    }

    method IsValid() returns (b: bool)
      requires Valid()
      ensures b <==> errorCode == Success
    {
      b := isValidb;
    }

    method GetErrorCode() returns (e: Status)
      requires Valid()
      ensures e == node.open
    {
      e := errorCode;
    }
  }

  /// The log after a child's walk: its writes, seen from the parent, follow the parent's.
  lemma LogAfterChild(log: seq<Write>, path: seq<nat>, ws: seq<Write>, i: nat, cw: seq<Write>)
    ensures (log + Nest(path, ws)) + Nest(path + [i], cw) == log + Nest(path, ws + Nest([i], cw))
  {
    NestAppend(path, ws, Nest([i], cw));
    NestNest(path, [i], cw);
  }

  /// The log after a write-back to one of the key's own values.
  lemma LogAfterWrite(log: seq<Write>, path: seq<nat>, ws: seq<Write>, w: Write)
    requires w.path == []
    ensures (log + Nest(path, ws)) + [w.(path := path)] == log + Nest(path, ws + [w])
  {
    NestAppend(path, ws, [w]);
    assert path + w.path == path;
  }

  /// `iter`: walks the subtree of an opened key, subkeys first and then values,
  /// rewriting every string value that contains FROM_NAME and counting the attempts.
  /// It does what `Walk` says to the registry and to `count`, and leaves no handle open.
  method Iter(key: RegKey, count: int) returns (ok: bool, newCount: int)
    requires key.Valid() && key.isValidb && key.path in key.registry.openKeys
    requires ValidPath(key.registry.hive, key.path) && KeyAt(key.registry.hive, key.path) == key.node
    requires key.depth == |key.path|
    modifies key.registry
    ensures ok == Walk(key.node).ok
    ensures newCount == count + |Walk(key.node).writes|
    ensures key.registry.hive == UpdateAt(old(key.registry.hive), key.path, Walk(key.node).key)
    ensures key.registry.log == old(key.registry.log) + Nest(key.path, Walk(key.node).writes)
    ensures key.registry.openKeys == old(key.registry.openKeys)
    decreases key.node, 2
  {
    ghost var t0 := key.registry.hive;
    ghost var s := WalkSubkeys(key.node, [], []);
    assert Walk(key.node) == if s.ok then WalkValues(s.key, 0, s.writes) else s;
    ok, newCount := IterSubkeys(key, count);
    if ok {
      ghost var kv := s.key;
      UpdateAtFound(t0, key.path, kv);
      ghost var countBefore, logBefore := newCount, key.registry.log;
      ok, newCount := IterValues(key, kv, newCount);
      ghost var v := WalkValues(kv, 0, []);
      ValuesAfterWrites(kv, 0, s.writes);
      UpdateAtTwice(t0, key.path, kv, v.key);
      NestAppend(key.path, s.writes, v.writes);
    }
  }

  /// The subkey loop of `iter`: each subkey in index order is enumerated and handed
  /// to `WalkChild`; an enumeration error or a child that fails stops the loop.
  method IterSubkeys(key: RegKey, count: int) returns (ok: bool, newCount: int)
    requires key.Valid() && key.isValidb && key.path in key.registry.openKeys
    requires ValidPath(key.registry.hive, key.path) && KeyAt(key.registry.hive, key.path) == key.node
    requires key.depth == |key.path|
    modifies key.registry
    ensures ok == WalkSubkeys(key.node, [], []).ok
    ensures newCount == count + |WalkSubkeys(key.node, [], []).writes|
    ensures key.registry.hive == UpdateAt(old(key.registry.hive), key.path, WalkSubkeys(key.node, [], []).key)
    ensures key.registry.log == old(key.registry.log) + Nest(key.path, WalkSubkeys(key.node, [], []).writes)
    ensures key.registry.openKeys == old(key.registry.openKeys)
    decreases key.node, 1
  {
    var reg := key.registry;
    var path := key.path;
    ghost var k0 := key.node;
    ghost var t0 := reg.hive;
    newCount := count;
    UpdateAtSame(t0, path);
    assert k0.(subkeys := k0.subkeys) == k0;

    ghost var done: seq<Subkey> := [];
    ghost var cur := k0.subkeys;
    ghost var ws: seq<Write> := [];
    assert Nest(path, ws) == [];
    var i: nat := 0;
    ok := true;
    while i < key.subkeyCount
      invariant i <= |k0.subkeys| && |done| == i && Spliced(cur, done, k0.subkeys)
      invariant WalkSubkeys(k0, done, ws) == WalkSubkeys(k0, [], [])
      invariant reg.hive == UpdateAt(t0, path, k0.(subkeys := cur))
      invariant reg.log == old(reg.log) + Nest(path, ws)
      invariant newCount == count + |ws|
      invariant reg.openKeys == old(reg.openKeys)
    {
      ghost var kc := k0.(subkeys := cur);
      UpdateAtFound(t0, path, kc);
      var st, keyName := reg.EnumKey(path, i);
      if st != Success {
        SubkeyEnumFails(k0, done, ws, cur);
        ok := false;
        break;
      }
      ghost var v := Visit(k0.subkeys[i].key);
      UpdateWithin(t0, path, kc, i, v.key);
      var goOn;
      goOn, newCount := WalkChild(key, i, keyName, newCount);
      LogAfterChild(old(reg.log), path, ws, i, v.writes);
      SubkeyStep(k0, done, ws, cur, i, v);
      SplicedStep(cur, done, k0.subkeys, k0.subkeys[i].(key := v.key));
      done, cur, ws := done + [k0.subkeys[i].(key := v.key)], cur[i := k0.subkeys[i].(key := v.key)],
                       ws + Nest([i], v.writes);
      i := i + 1;
      if !goOn {
        ok := false;
        break;
      }
    }
    if ok {
      SubkeysAllDone(k0, done, ws, cur);
    }
    assert WalkSubkeys(k0, [], []) == Outcome(ok, k0.(subkeys := cur), ws);
  }

  /// One subkey of the subkey loop, already enumerated: it is opened as a key one level
  /// deeper, walked if the open succeeded, and destroyed again; `Visit` says what comes
  /// of it.
  method WalkChild(key: RegKey, i: nat, name: string, count: int) returns (goOn: bool, newCount: int)
    requires key.Valid() && key.isValidb && key.depth == |key.path| && i < |key.node.subkeys|
    requires key.path in key.registry.openKeys
    requires ValidPath(key.registry.hive, key.path + [i])
    requires KeyAt(key.registry.hive, key.path + [i]) == key.node.subkeys[i].key
    modifies key.registry
    ensures goOn == Visit(key.node.subkeys[i].key).ok
    ensures newCount == count + |Visit(key.node.subkeys[i].key).writes|
    ensures key.registry.hive ==
      UpdateAt(old(key.registry.hive), key.path + [i], Visit(key.node.subkeys[i].key).key)
    ensures key.registry.log ==
      old(key.registry.log) + Nest(key.path + [i], Visit(key.node.subkeys[i].key).writes)
    ensures key.registry.openKeys == old(key.registry.openKeys)
    decreases key.node, 0
  {
    newCount := count;
    assert (key.path + [i])[..|key.path + [i]| - 1] == key.path;
    var subKey := new RegKey(key.registry, key.path + [i], name, key.depth + 1);
    if !subKey.isValidb {
      UpdateAtSame(key.registry.hive, key.path + [i]);
      assert Nest(key.path + [i], []) == [];
      if subKey.errorCode != FileNotFound && subKey.errorCode != AccessDenied {
        subKey.Close();
        goOn := false;
        return;
      }
    }
    goOn := true;
    if subKey.isValidb {
      goOn, newCount := Iter(subKey, newCount);
    }
    subKey.Close();
  }

  /// The value loop of `iter`, over the key `kv` as the subkey loop left it: each value
  /// in index order is enumerated and read as a string; one that contains FROM_NAME is
  /// counted and written back with every occurrence replaced by TO_NAME.
  method IterValues(key: RegKey, ghost kv: Key, count: int) returns (ok: bool, newCount: int)
    requires key.Valid() && key.isValidb && key.path in key.registry.openKeys
    requires ValidPath(key.registry.hive, key.path) && KeyAt(key.registry.hive, key.path) == kv
    requires |kv.values| == key.valueCount
    modifies key.registry
    ensures ok == WalkValues(kv, 0, []).ok
    ensures newCount == count + |WalkValues(kv, 0, []).writes|
    ensures key.registry.hive == UpdateAt(old(key.registry.hive), key.path, WalkValues(kv, 0, []).key)
    ensures key.registry.log == old(key.registry.log) + Nest(key.path, WalkValues(kv, 0, []).writes)
    ensures key.registry.openKeys == old(key.registry.openKeys)
  {
    var reg := key.registry;
    var path := key.path;
    ghost var t0 := reg.hive;
    ghost var k := kv;
    ghost var ws: seq<Write> := [];
    newCount := count;
    UpdateAtSame(t0, path);
    assert Nest(path, ws) == [];
    var j: nat := 0;
    ok := true;
    while j < key.valueCount
      invariant j <= |k.values| == |kv.values|
      invariant WalkValues(k, j, ws) == WalkValues(kv, 0, [])
      invariant reg.hive == UpdateAt(t0, path, k)
      invariant reg.log == old(reg.log) + Nest(path, ws)
      invariant newCount == count + |ws|
      invariant reg.openKeys == old(reg.openKeys)
    {
      UpdateAtFound(t0, path, k);
      var st, valueName := reg.EnumValue(path, j);
      if st != Success {
        ValuesStopHere(k, j, ws);
        ok := false;
        break;
      }
      var fetch, data := reg.GetValue(path, j);
      if fetch != Success && fetch != UnsupportedType {
        ValuesStopHere(k, j, ws);
        ok := false;
        break;
      }
      if fetch == Success && Contains(CStr(data), FromName) {
        newCount := newCount + 1;
        var replaced := Replace(CStr(data), FromName, ToName);
        var setRes := reg.SetValue(path, j, replaced);
        ghost var w := Write([], j, replaced, setRes);
        LogAfterWrite(old(reg.log), path, ws, w);
        if setRes != Success {
          ValuesStopHere(k, j, ws);
          ws := ws + [w];
          ok := false;
          break;
        }
        ValuesGoOn(k, j, ws);
        UpdateAtTwice(t0, path, k, SetData(k, j, replaced));
        k, ws := SetData(k, j, replaced), ws + [w];
      } else {
        ValuesGoOn(k, j, ws);
      }
      j := j + 1;
    }
    if ok {
      assert WalkValues(k, j, ws) == Outcome(true, k, ws);
    }
    assert WalkValues(kv, 0, []) == Outcome(ok, k, ws);
  }
}
