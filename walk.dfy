/// What `iter` (move_homedir.cpp) does to one opened key, as pure functions over the
/// registry tree: the outcome (`true`/`false`), the key as it is afterwards and the
/// write-backs attempted, in order. The counter `iter` updates goes up by one per
/// attempted write-back, so it is `|writes|` more afterwards.
module WalkSpec {
  import opened StringReplace
  import opened RegistryTree

  /// The fixed path fragments (FROM_NAME and TO_NAME).
  const FromName: string := "Users\\from"
  const ToName: string := "Users\\to"

  /// The characters of a NUL-terminated buffer that C string functions see: everything
  /// before the first NUL. `wcsstr(data, FROM_NAME)` and `std::wstring(data)` read this.
  function CStr(s: string): (r: string)
    ensures |r| <= |s| && r == s[..|r|]
    ensures forall i :: 0 <= i < |r| ==> r[i] != '\0'
    ensures |r| < |s| ==> s[|r|] == '\0'
  {
    if s == [] || s[0] == '\0' then [] else [s[0]] + CStr(s[1..])
  }

  /// A value that the walk rewrites: it reads as a string and contains FROM_NAME.
  predicate Matches(v: Value)
  {
    v.fetch == Success && Contains(CStr(v.data), FromName)
  }

  /// The data written back for a matching value (`NoFromNameLeft`: it holds no
  /// FROM_NAME any more).
  function NewData(v: Value): string
  {
    ReplaceAll(CStr(v.data), FromName, ToName)
  }

  /// For the program's fixed pair, replace-all leaves no FROM_NAME behind: no
  /// non-empty suffix of `Users\to` and no proper suffix of `Users\from` is a prefix
  /// of `Users\from`, so no occurrence can straddle a replacement or be assembled
  /// from one.
  lemma NoFromNameLeft(s: string)
    ensures !Contains(ReplaceAll(s, FromName, ToName), FromName)
  {
    assert FromName[6] == 'f' && ToName[6] == 't';
    NoOccurrenceLeft(s, FromName, ToName, 6);
  }

  /// Replacing FROM_NAME by TO_NAME is idempotent: a second pass over its own
  /// output changes nothing.
  lemma ReplaceTwice(s: string)
    ensures ReplaceAll(ReplaceAll(s, FromName, ToName), FromName, ToName)
         == ReplaceAll(s, FromName, ToName)
  {
    NoFromNameLeft(s);
    ReplaceAllNoMatch(ReplaceAll(s, FromName, ToName), FromName, ToName);
  }

  /// Open outcomes of a subkey that the walk skips without failing.
  predicate Tolerated(s: Status)
  {
    s == FileNotFound || s == AccessDenied
  }

  datatype Outcome = Outcome(ok: bool, key: Key, writes: seq<Write>)

  /// `iter` on an opened key `k`: all subkeys first, then all values. Write paths
  /// are relative to `k`.
  function Walk(k: Key): (r: Outcome)
    ensures r.key.open == k.open
    ensures |r.key.subkeys| == |k.subkeys| && |r.key.values| == |k.values|
    decreases k, 1
  {
    var s := WalkSubkeys(k, [], []);
    if !s.ok then s else WalkValues(s.key, 0, s.writes)
  }

  /// The subkey loop of `iter` from index `|done|` on; `done` holds the subkeys
  /// already processed and `ws` the writes so far.
  function WalkSubkeys(k: Key, done: seq<Subkey>, ws: seq<Write>): (r: Outcome)
    requires |done| <= |k.subkeys|
    ensures r.key.open == k.open && r.key.values == k.values
    ensures |r.key.subkeys| == |k.subkeys|
    decreases k, 0, |k.subkeys| - |done|
  {
    var i := |done|;
    if i == |k.subkeys| then
      Outcome(true, k.(subkeys := done), ws)
    else
      var sk := k.subkeys[i];
      if sk.enumStatus != Success then
        Outcome(false, k.(subkeys := done + k.subkeys[i..]), ws)
      else if sk.key.open == Success then
        var c := Walk(sk.key);
        var done' := done + [sk.(key := c.key)];
        var ws' := ws + Nest([i], c.writes);
        if !c.ok then Outcome(false, k.(subkeys := done' + k.subkeys[i + 1..]), ws')
        else WalkSubkeys(k, done', ws')
      else if Tolerated(sk.key.open) then
        WalkSubkeys(k, done + [sk], ws)
      else
        Outcome(false, k.(subkeys := done + k.subkeys[i..]), ws)
  }

  /// The value loop of `iter` from index `j` on, over the key `k` as the subkey loop
  /// left it; `ws` holds the writes so far.
  function WalkValues(k: Key, j: nat, ws: seq<Write>): (r: Outcome)
    requires j <= |k.values|
    ensures r.key.open == k.open && r.key.subkeys == k.subkeys
    ensures |r.key.values| == |k.values|
    decreases |k.values| - j
  {
    if j == |k.values| then
      Outcome(true, k, ws)
    else
      var v := k.values[j];
      if v.enumStatus != Success then Outcome(false, k, ws)
      else if v.fetch == UnsupportedType then WalkValues(k, j + 1, ws)
      else if v.fetch != Success then Outcome(false, k, ws)
      else if !Contains(CStr(v.data), FromName) then WalkValues(k, j + 1, ws)
      else
        var d := NewData(v);
        var ws' := ws + [Write([], j, d, v.writeStatus)];
        if v.writeStatus != Success then Outcome(false, k, ws')
        else WalkValues(SetData(k, j, d), j + 1, ws')
  }

  // ---------------------------------------------------------------------------
  // When the walk returns true

  /// A value whose processing aborts the walk: it cannot be enumerated, it cannot be
  /// read for a reason other than not being a string, or it matches and cannot be
  /// written back.
  predicate ValueFails(v: Value)
  {
    v.enumStatus != Success
    || (v.fetch != Success && v.fetch != UnsupportedType)
    || (Matches(v) && v.writeStatus != Success)
  }

  /// A subkey whose processing aborts the walk: it cannot be enumerated, it fails to
  /// open with an error other than not-found or access-denied, or it opens and its
  /// own subtree holds such an error.
  predicate SubkeyFails(s: Subkey)
    decreases s
  {
    s.enumStatus != Success
    || (s.key.open != Success && !Tolerated(s.key.open))
    || (s.key.open == Success && Fails(s.key))
  }

  /// Somewhere under `k` the walk meets a hard error.
  predicate Fails(k: Key)
    decreases k
  {
    (exists i :: 0 <= i < |k.subkeys| && SubkeyFails(k.subkeys[i]))
    || (exists j :: 0 <= j < |k.values| && ValueFails(k.values[j]))
  }

  /// The walk returns true exactly when no entry it reaches is a hard error.
  lemma {:induction false} WalkOkIff(k: Key)
    ensures Walk(k).ok <==> !Fails(k)
    decreases k, 1
  {
    var s := WalkSubkeys(k, [], []);
    SubkeysOkIff(k, [], []);
    if s.ok {
      ValuesOkIff(s.key, 0, s.writes);
    }
  }

  lemma {:induction false} SubkeysOkIff(k: Key, done: seq<Subkey>, ws: seq<Write>)
    requires |done| <= |k.subkeys|
    ensures WalkSubkeys(k, done, ws).ok <==>
      forall i :: |done| <= i < |k.subkeys| ==> !SubkeyFails(k.subkeys[i])
    decreases k, 0, |k.subkeys| - |done|
  {
    var i := |done|;
    if i < |k.subkeys| {
      var sk := k.subkeys[i];
      if sk.enumStatus == Success && sk.key.open == Success {
        var c := Walk(sk.key);
        WalkOkIff(sk.key);
        if c.ok {
          SubkeysOkIff(k, done + [sk.(key := c.key)], ws + Nest([i], c.writes));
        }
      } else if sk.enumStatus == Success && Tolerated(sk.key.open) {
        SubkeysOkIff(k, done + [sk], ws);
      }
    }
  }

  lemma {:induction false} ValuesOkIff(k: Key, j: nat, ws: seq<Write>)
    requires j <= |k.values|
    ensures WalkValues(k, j, ws).ok <==>
      forall m :: j <= m < |k.values| ==> !ValueFails(k.values[m])
    decreases |k.values| - j
  {
    if j < |k.values| {
      var v := k.values[j];
      if v.enumStatus == Success && v.fetch == UnsupportedType {
        ValuesOkIff(k, j + 1, ws);
      } else if v.enumStatus == Success && v.fetch == Success {
        if !Contains(CStr(v.data), FromName) {
          ValuesOkIff(k, j + 1, ws);
        } else if v.writeStatus == Success {
          var d := NewData(v);
          ValuesOkIff(SetData(k, j, d), j + 1, ws + [Write([], j, d, v.writeStatus)]);
        }
      }
    }
  }

  // ---------------------------------------------------------------------------
  // What a successful walk produces

  /// A value as a complete walk leaves it.
  function RewriteValue(v: Value): Value
  {
    if Matches(v) then v.(data := NewData(v)) else v
  }

  function RewriteValues(vs: seq<Value>): (r: seq<Value>)
    ensures |r| == |vs|
  {
    if vs == [] then [] else [RewriteValue(vs[0])] + RewriteValues(vs[1..])
  }

  /// Number of matching values in `vs`.
  function CountMatches(vs: seq<Value>): nat
  {
    if vs == [] then 0 else (if Matches(vs[0]) then 1 else 0) + CountMatches(vs[1..])
  }

  /// `k` with every matching value in every key reachable through keys that open
  /// rewritten: the registry a complete walk is meant to leave.
  function Rewritten(k: Key): Key
    decreases k, 1
  {
    Key(k.open, RewrittenSubkeys(k, 0), RewriteValues(k.values))
  }

  function RewrittenSubkeys(k: Key, i: nat): seq<Subkey>
    requires i <= |k.subkeys|
    decreases k, 0, |k.subkeys| - i
  {
    if i == |k.subkeys| then []
    else
      var sk := k.subkeys[i];
      [if sk.key.open == Success then sk.(key := Rewritten(sk.key)) else sk]
        + RewrittenSubkeys(k, i + 1)
  }

  /// Number of matching values in every key reachable through keys that open.
  function MatchCount(k: Key): nat
    decreases k, 1
  {
    SubtreeMatches(k, 0) + CountMatches(k.values)
  }

  function SubtreeMatches(k: Key, i: nat): nat
    requires i <= |k.subkeys|
    decreases k, 0, |k.subkeys| - i
  {
    if i == |k.subkeys| then 0
    else
      (if k.subkeys[i].key.open == Success then MatchCount(k.subkeys[i].key) else 0)
        + SubtreeMatches(k, i + 1)
  }

  /// A walk that returns true has rewritten exactly the matching values of the
  /// subtree, and the counter has gone up by exactly their number.
  lemma {:induction false} WalkSucceeds(k: Key)
    ensures Walk(k).ok ==> Walk(k).key == Rewritten(k) && |Walk(k).writes| == MatchCount(k)
    decreases k, 1
  {
    var s := WalkSubkeys(k, [], []);
    SubkeysSucceed(k, [], []);
    if s.ok {
      ValuesSucceed(s.key, 0, s.writes);
      assert s.key.values[0..] == k.values;
    }
  }

  lemma {:induction false} SubkeysSucceed(k: Key, done: seq<Subkey>, ws: seq<Write>)
    requires |done| <= |k.subkeys|
    ensures var r := WalkSubkeys(k, done, ws);
      r.ok ==> (r.key.subkeys == done + RewrittenSubkeys(k, |done|)
                && |r.writes| == |ws| + SubtreeMatches(k, |done|))
    decreases k, 0, |k.subkeys| - |done|
  {
    var i := |done|;
    if i == |k.subkeys| {
      assert done + [] == done;
    } else {
      var sk := k.subkeys[i];
      var v := Visit(sk.key);
      if sk.enumStatus == Success && v.ok {
        SubkeyGoesOn(k, done, ws, i, v);
        if sk.key.open == Success {
          WalkSucceeds(sk.key);
        }
        var x := sk.(key := v.key);
        SubkeysSucceed(k, done + [x], ws + Nest([i], v.writes));
        assert (done + [x]) + RewrittenSubkeys(k, i + 1) == done + RewrittenSubkeys(k, i);
      } else {
        SubkeysStopHere(k, done, ws);
      }
    }
  }

  /// One value step of a walk that goes on: the value at `j` as the walk leaves it.
  lemma ValueStep(k: Key, j: nat)
    requires j < |k.values|
    ensures var v := k.values[j];
      var k' := if Matches(v) then SetData(k, j, NewData(v)) else k;
      k'.values[..j + 1] == k.values[..j] + [RewriteValue(v)] &&
      k'.values[j + 1..] == k.values[j + 1..] &&
      RewriteValues(k.values[j..]) == [RewriteValue(v)] + RewriteValues(k.values[j + 1..]) &&
      CountMatches(k.values[j..]) == (if Matches(v) then 1 else 0) + CountMatches(k.values[j + 1..])
  {
    var rest := k.values[j..];
    assert rest[0] == k.values[j] && rest[1..] == k.values[j + 1..];
    assert k.values[..j + 1] == k.values[..j] + [k.values[j]];
  }

  /// The value loop goes past a value that is not a hard error, rewriting it if it
  /// matches.
  lemma ValuesGoOn(k: Key, j: nat, ws: seq<Write>)
    requires j < |k.values| && !ValueFails(k.values[j])
    ensures var v := k.values[j];
      WalkValues(k, j, ws) ==
        if Matches(v) then
          WalkValues(SetData(k, j, NewData(v)), j + 1, ws + [Write([], j, NewData(v), v.writeStatus)])
        else WalkValues(k, j + 1, ws)
  {
  }

  /// The value loop stops at a value that is a hard error; a matching value whose
  /// write-back fails still counts as an attempted write.
  lemma ValuesStopHere(k: Key, j: nat, ws: seq<Write>)
    requires j < |k.values| && ValueFails(k.values[j])
    ensures var v := k.values[j];
      WalkValues(k, j, ws) ==
        Outcome(false, k, if v.enumStatus == Success && Matches(v)
                          then ws + [Write([], j, NewData(v), v.writeStatus)] else ws)
  {
  }

  /// The subkey loop goes past a subkey that is enumerated and either skipped or
  /// walked successfully.
  lemma SubkeysGoOn(k: Key, done: seq<Subkey>, ws: seq<Write>)
    requires |done| < |k.subkeys|
    requires var sk := k.subkeys[|done|];
      sk.enumStatus == Success && (Tolerated(sk.key.open) || (sk.key.open == Success && Walk(sk.key).ok))
    ensures var i := |done|;
      var sk := k.subkeys[i];
      WalkSubkeys(k, done, ws) ==
        if sk.key.open == Success then
          WalkSubkeys(k, done + [sk.(key := Walk(sk.key).key)], ws + Nest([i], Walk(sk.key).writes))
        else WalkSubkeys(k, done + [sk], ws)
  {
  }

  /// The subkey loop stops at a subkey that cannot be enumerated, fails to open with
  /// a hard error, or whose own walk fails.
  lemma SubkeysStopHere(k: Key, done: seq<Subkey>, ws: seq<Write>)
    requires |done| < |k.subkeys|
    requires var sk := k.subkeys[|done|];
      !(sk.enumStatus == Success && (Tolerated(sk.key.open) || (sk.key.open == Success && Walk(sk.key).ok)))
    ensures var i := |done|;
      var sk := k.subkeys[i];
      WalkSubkeys(k, done, ws) ==
        if sk.enumStatus == Success && sk.key.open == Success then
          Outcome(false, k.(subkeys := done + [sk.(key := Walk(sk.key).key)] + k.subkeys[i + 1..]),
                  ws + Nest([i], Walk(sk.key).writes))
        else Outcome(false, k.(subkeys := done + k.subkeys[i..]), ws)
  {
  }

  /// What the subkey loop makes of a child it could enumerate: a child that opened is
  /// walked; any other is left as it is, and the loop goes on past it only when its
  /// open error is tolerated.
  function Visit(c: Key): (r: Outcome)
    ensures r.ok <==> Tolerated(c.open) || (c.open == Success && Walk(c).ok)
    ensures c.open != Success ==> r.key == c && r.writes == []
  {
    if c.open == Success then Walk(c) else Outcome(Tolerated(c.open), c, [])
  }

  /// A child the subkey loop could enumerate lets the loop go on exactly when its open
  /// error is tolerated or it opens and holds no hard error; an opened child ends up
  /// as `Rewritten` says, with one write per matching value beneath it.
  lemma VisitSpec(c: Key)
    ensures Visit(c).ok <==> Tolerated(c.open) || (c.open == Success && !Fails(c))
    ensures Visit(c).ok && c.open == Success ==>
      Visit(c).key == Rewritten(c) && |Visit(c).writes| == MatchCount(c)
  {
    if c.open == Success {
      WalkOkIff(c);
      WalkSucceeds(c);
    }
  }

  /// `cur` is `orig` with its first `|done|` entries replaced by those of `done`: the
  /// subkeys of a key part-way through the subkey loop, updated in place.
  predicate Spliced(cur: seq<Subkey>, done: seq<Subkey>, orig: seq<Subkey>)
  {
    |done| <= |orig| == |cur| &&
    (forall m :: 0 <= m < |done| ==> cur[m] == done[m]) &&
    (forall m :: |done| <= m < |orig| ==> cur[m] == orig[m])
  }

  lemma SplicedIs(cur: seq<Subkey>, done: seq<Subkey>, orig: seq<Subkey>)
    requires Spliced(cur, done, orig)
    ensures cur == done + orig[|done|..]
  {
  }

  /// Setting entry `|done|` in place extends `done` by it.
  lemma SplicedStep(cur: seq<Subkey>, done: seq<Subkey>, orig: seq<Subkey>, x: Subkey)
    requires Spliced(cur, done, orig) && |done| < |orig|
    ensures Spliced(cur[|done| := x], done + [x], orig)
  {
  }

  /// The subkey loop goes on past an enumerated subkey whose visit succeeded.
  lemma SubkeyGoesOn(k: Key, done: seq<Subkey>, ws: seq<Write>, i: nat, v: Outcome)
    requires |done| == i < |k.subkeys| && k.subkeys[i].enumStatus == Success
    requires v == Visit(k.subkeys[i].key) && v.ok
    ensures WalkSubkeys(k, done, ws) ==
      WalkSubkeys(k, done + [k.subkeys[i].(key := v.key)], ws + Nest([i], v.writes))
  {
    if k.subkeys[i].key.open != Success {
      assert k.subkeys[i].(key := v.key) == k.subkeys[i];
      assert ws + Nest([i], v.writes) == ws;
    }
  }

  /// One step of the subkey loop past an enumerated subkey, whatever becomes of it:
  /// the subkey is replaced by what `Visit` left and its writes are added; the loop
  /// goes on exactly when the visit succeeded, and otherwise stops with the subkeys
  /// as they now are.
  lemma SubkeyStep(k: Key, done: seq<Subkey>, ws: seq<Write>, cur: seq<Subkey>, i: nat, v: Outcome)
    requires |done| == i < |k.subkeys| && Spliced(cur, done, k.subkeys)
    requires k.subkeys[i].enumStatus == Success && v == Visit(k.subkeys[i].key)
    ensures v.ok ==>
      WalkSubkeys(k, done, ws) ==
      WalkSubkeys(k, done + [k.subkeys[i].(key := v.key)], ws + Nest([i], v.writes))
    ensures !v.ok ==>
      WalkSubkeys(k, done, ws) ==
      Outcome(false, k.(subkeys := cur[i := k.subkeys[i].(key := v.key)]), ws + Nest([i], v.writes))
  {
    var sk := k.subkeys[i];
    var x := sk.(key := v.key);
    SplicedStep(cur, done, k.subkeys, x);
    SplicedIs(cur[i := x], done + [x], k.subkeys);
    if sk.key.open != Success {
      assert x == sk;
      assert ws + Nest([i], v.writes) == ws;
      if !v.ok {
        SplicedIs(cur, done, k.subkeys);
      }
    }
  }

  /// The subkey loop stops, with the subkeys as they are, at one it cannot enumerate.
  lemma SubkeyEnumFails(k: Key, done: seq<Subkey>, ws: seq<Write>, cur: seq<Subkey>)
    requires |done| < |k.subkeys| && Spliced(cur, done, k.subkeys)
    requires k.subkeys[|done|].enumStatus != Success
    ensures WalkSubkeys(k, done, ws) == Outcome(false, k.(subkeys := cur), ws)
  {
    SplicedIs(cur, done, k.subkeys);
  }

  /// The subkey loop succeeds once every subkey is done.
  lemma SubkeysAllDone(k: Key, done: seq<Subkey>, ws: seq<Write>, cur: seq<Subkey>)
    requires |done| == |k.subkeys| && Spliced(cur, done, k.subkeys)
    ensures WalkSubkeys(k, done, ws) == Outcome(true, k.(subkeys := cur), ws)
  {
    SplicedIs(cur, done, k.subkeys);
  }

  /// The value loop's result does not depend on the writes made before it: they only
  /// come first.
  lemma {:induction false} ValuesAfterWrites(k: Key, j: nat, ws: seq<Write>)
    requires j <= |k.values|
    ensures WalkValues(k, j, ws).ok == WalkValues(k, j, []).ok
    ensures WalkValues(k, j, ws).key == WalkValues(k, j, []).key
    ensures WalkValues(k, j, ws).writes == ws + WalkValues(k, j, []).writes
    decreases |k.values| - j
  {
    if j == |k.values| {
      assert ws + [] == ws;
    } else if ValueFails(k.values[j]) {
      ValuesStopHere(k, j, ws);
      ValuesStopHere(k, j, []);
    } else {
      var v := k.values[j];
      ValuesGoOn(k, j, ws);
      ValuesGoOn(k, j, []);
      if Matches(v) {
        var w := Write([], j, NewData(v), v.writeStatus);
        var k' := SetData(k, j, NewData(v));
        ValuesAfterWrites(k', j + 1, ws + [w]);
        ValuesAfterWrites(k', j + 1, [w]);
        assert [] + [w] == [w];
        var rest := WalkValues(k', j + 1, []).writes;
        assert (ws + [w]) + rest == ws + ([w] + rest);
      } else {
        ValuesAfterWrites(k, j + 1, ws);
      }
    }
  }

  lemma {:induction false} ValuesSucceed(k: Key, j: nat, ws: seq<Write>)
    requires j <= |k.values|
    ensures var r := WalkValues(k, j, ws);
      r.ok ==> (r.key.values == k.values[..j] + RewriteValues(k.values[j..])
                && |r.writes| == |ws| + CountMatches(k.values[j..]))
    decreases |k.values| - j
  {
    var r := WalkValues(k, j, ws);
    if j == |k.values| {
      assert k.values[..j] == k.values;
    } else if ValueFails(k.values[j]) {
      ValuesStopHere(k, j, ws);
    } else {
      var v := k.values[j];
      var k' := if Matches(v) then SetData(k, j, NewData(v)) else k;
      var ws' := if Matches(v) then ws + [Write([], j, NewData(v), v.writeStatus)] else ws;
      ValuesGoOn(k, j, ws);
      assert r == WalkValues(k', j + 1, ws');
      ValuesSucceed(k', j + 1, ws');
      ValueStep(k, j);
      if r.ok {
        calc {
          r.key.values;
          k'.values[..j + 1] + RewriteValues(k'.values[j + 1..]);
          (k.values[..j] + [RewriteValue(v)]) + RewriteValues(k.values[j + 1..]);
          k.values[..j] + ([RewriteValue(v)] + RewriteValues(k.values[j + 1..]));
          k.values[..j] + RewriteValues(k.values[j..]);
        }
      }
    }
  }

  // ---------------------------------------------------------------------------
  // The order of the write-backs

  /// The walk reaches value `i` of the key at `p` before value `j` of the key at `q`:
  /// a key's whole subtree comes before its own values, lower-numbered siblings come
  /// first, and a key's values go in index order.
  predicate PathBefore(p: seq<nat>, i: nat, q: seq<nat>, j: nat)
    decreases |p|
  {
    if p == [] then q == [] && i < j
    else if q == [] then true
    else if p[0] != q[0] then p[0] < q[0]
    else PathBefore(p[1..], i, q[1..], j)
  }

  predicate Before(a: Write, b: Write)
  {
    PathBefore(a.path, a.index, b.path, b.index)
  }

  ghost predicate InOrder(ws: seq<Write>)
  {
    forall x, y :: 0 <= x < y < |ws| ==> Before(ws[x], ws[y])
  }

  /// Every write in `ws` is in the subtree of one of the first `n` subkeys.
  ghost predicate InSubtrees(ws: seq<Write>, n: nat)
  {
    forall m :: 0 <= m < |ws| ==> ws[m].path != [] && ws[m].path[0] < n
  }

  /// Every write in `ws` is in a subtree, or to one of the first `j` values.
  ghost predicate BeforeValue(ws: seq<Write>, j: nat)
  {
    forall m :: 0 <= m < |ws| ==> ws[m].path != [] || ws[m].index < j
  }

  lemma NestBefore(i: nat, a: Write, b: Write)
    ensures Before(a.(path := [i] + a.path), b.(path := [i] + b.path)) == Before(a, b)
  {
    assert ([i] + a.path)[1..] == a.path;
    assert ([i] + b.path)[1..] == b.path;
  }

  lemma InOrderNest(i: nat, ws: seq<Write>)
    requires InOrder(ws)
    ensures InOrder(Nest([i], ws))
  {
    var n := Nest([i], ws);
    forall x, y | 0 <= x < y < |n| ensures Before(n[x], n[y]) {
      NestBefore(i, ws[x], ws[y]);
    }
  }

  lemma InOrderAppend(a: seq<Write>, b: seq<Write>)
    requires InOrder(a) && InOrder(b)
    requires forall x, y :: 0 <= x < |a| && 0 <= y < |b| ==> Before(a[x], b[y])
    ensures InOrder(a + b)
  {
    var c := a + b;
    forall x, y | 0 <= x < y < |c| ensures Before(c[x], c[y]) {
      if y < |a| {
      } else if x >= |a| {
        assert c[x] == b[x - |a|] && c[y] == b[y - |a|];
      } else {
        assert c[y] == b[y - |a|];
      }
    }
  }

  /// Write-backs come in the order the walk visits them: every subtree before its
  /// key's values, subkeys in index order, values in index order.
  lemma {:induction false} WalkOrder(k: Key)
    ensures InOrder(Walk(k).writes)
    decreases k, 1
  {
    var s := WalkSubkeys(k, [], []);
    SubkeysOrder(k, [], []);
    if s.ok {
      ValuesOrder(s.key, 0, s.writes);
    }
  }

  /// No position comes before itself.
  lemma {:induction false} PathBeforeIrreflexive(p: seq<nat>, i: nat)
    ensures !PathBefore(p, i, p, i)
    decreases |p|
  {
    if p != [] {
      PathBeforeIrreflexive(p[1..], i);
    }
  }

  /// No value is written twice in one walk: the count goes up once per rewritten
  /// value, however many occurrences of FROM_NAME it holds.
  lemma WalkWritesOnce(k: Key)
    ensures forall x, y :: 0 <= x < y < |Walk(k).writes| ==>
      (Walk(k).writes[x].path, Walk(k).writes[x].index) != (Walk(k).writes[y].path, Walk(k).writes[y].index)
  {
    var ws := Walk(k).writes;
    WalkOrder(k);
    forall x, y | 0 <= x < y < |ws| ensures (ws[x].path, ws[x].index) != (ws[y].path, ws[y].index) {
      assert Before(ws[x], ws[y]);
      PathBeforeIrreflexive(ws[x].path, ws[x].index);
    }
  }

  lemma {:induction false} SubkeysOrder(k: Key, done: seq<Subkey>, ws: seq<Write>)
    requires |done| <= |k.subkeys|
    requires InOrder(ws)
    requires InSubtrees(ws, |done|)
    ensures InOrder(WalkSubkeys(k, done, ws).writes)
    ensures InSubtrees(WalkSubkeys(k, done, ws).writes, |k.subkeys|)
    decreases k, 0, |k.subkeys| - |done|
  {
    var i := |done|;
    if i < |k.subkeys| {
      var sk := k.subkeys[i];
      if sk.enumStatus == Success && sk.key.open == Success {
        var c := Walk(sk.key);
        WalkOrder(sk.key);
        var n := Nest([i], c.writes);
        InOrderNest(i, c.writes);
        InOrderAppend(ws, n);
        var ws' := ws + n;
        if c.ok {
          SubkeysOrder(k, done + [sk.(key := c.key)], ws');
        }
      } else if sk.enumStatus == Success && Tolerated(sk.key.open) {
        SubkeysOrder(k, done + [sk], ws);
      }
    }
  }

  lemma {:induction false} ValuesOrder(k: Key, j: nat, ws: seq<Write>)
    requires j <= |k.values|
    requires InOrder(ws)
    requires BeforeValue(ws, j)
    ensures InOrder(WalkValues(k, j, ws).writes)
    ensures BeforeValue(WalkValues(k, j, ws).writes, |k.values|)
    decreases |k.values| - j
  {
    if j < |k.values| {
      var v := k.values[j];
      if v.enumStatus == Success && v.fetch == UnsupportedType {
        ValuesOrder(k, j + 1, ws);
      } else if v.enumStatus == Success && v.fetch == Success {
        if !Contains(CStr(v.data), FromName) {
          ValuesOrder(k, j + 1, ws);
        } else {
          var w := Write([], j, NewData(v), v.writeStatus);
          InOrderAppend(ws, [w]);
          if v.writeStatus == Success {
            ValuesOrder(SetData(k, j, NewData(v)), j + 1, ws + [w]);
          }
        }
      }
    }
  }

  // ---------------------------------------------------------------------------
  // Which write-backs happen

  /// `p` leads from `k` through subkeys that were enumerated and opened.
  predicate Reaches(k: Key, p: seq<nat>)
    decreases p
  {
    p == [] ||
    (p[0] < |k.subkeys| && k.subkeys[p[0]].enumStatus == Success &&
     k.subkeys[p[0]].key.open == Success && Reaches(k.subkeys[p[0]].key, p[1..]))
  }

  /// `w` writes value `w.index` of `vs`, which matches, with its rewrite, and has the
  /// outcome that value's write-back has.
  predicate WritesValue(vs: seq<Value>, w: Write)
  {
    w.index < |vs| && Matches(vs[w.index]) &&
    w.data == NewData(vs[w.index]) && w.status == vs[w.index].writeStatus
  }

  /// `w` is a write-back of the value loop started at `j`: it writes a value of the key
  /// itself, at or after `j`.
  predicate OwnValueWrite(vs: seq<Value>, j: nat, w: Write)
  {
    w.path == [] && j <= w.index && WritesValue(vs, w)
  }

  /// `w` is a write-back the walk of `k` may do: it rewrites a matching value of a
  /// key reached through keys that open.
  predicate Justified(k: Key, w: Write)
  {
    ValidPath(k, w.path) && Reaches(k, w.path) && WritesValue(KeyAt(k, w.path).values, w)
  }

  lemma JustifiedNest(k: Key, i: nat, w: Write)
    requires i < |k.subkeys| && k.subkeys[i].enumStatus == Success
    requires k.subkeys[i].key.open == Success && Justified(k.subkeys[i].key, w)
    ensures Justified(k, w.(path := [i] + w.path))
  {
    assert ([i] + w.path)[1..] == w.path;
  }

  /// Only matching string values of keys the walk reaches are written, each with its
  /// rewrite: a value without FROM_NAME, a non-string value or a value under a key
  /// that did not open is never written.
  lemma {:induction false} WalkWritesJustified(k: Key)
    ensures forall m :: 0 <= m < |Walk(k).writes| ==> Justified(k, Walk(k).writes[m])
    decreases k, 1
  {
    var s := WalkSubkeys(k, [], []);
    SubkeysJustified(k, [], []);
    if s.ok {
      var vw := WalkValues(s.key, 0, []).writes;
      ValuesAfterWrites(s.key, 0, s.writes);
      ValuesJustified(s.key, 0);
      assert Walk(k).writes == s.writes + vw;
      forall m | |s.writes| <= m < |Walk(k).writes| ensures Justified(k, Walk(k).writes[m]) {
        assert OwnValueWrite(s.key.values, 0, vw[m - |s.writes|]);
      }
    }
  }

  lemma {:induction false} SubkeysJustified(k: Key, done: seq<Subkey>, ws: seq<Write>)
    requires |done| <= |k.subkeys|
    requires forall m :: 0 <= m < |ws| ==> Justified(k, ws[m])
    ensures forall m :: 0 <= m < |WalkSubkeys(k, done, ws).writes| ==>
      Justified(k, WalkSubkeys(k, done, ws).writes[m])
    decreases k, 0, |k.subkeys| - |done|
  {
    var i := |done|;
    if i < |k.subkeys| {
      var sk := k.subkeys[i];
      var goesOn := sk.enumStatus == Success && (Tolerated(sk.key.open) || (sk.key.open == Success && Walk(sk.key).ok));
      if goesOn {
        SubkeysGoOn(k, done, ws);
      } else {
        SubkeysStopHere(k, done, ws);
      }
      if sk.enumStatus == Success && sk.key.open == Success {
        var c := Walk(sk.key);
        WalkWritesJustified(sk.key);
        var ws' := ws + Nest([i], c.writes);
        forall m | 0 <= m < |ws'| ensures Justified(k, ws'[m]) {
          if m >= |ws| {
            JustifiedNest(k, i, c.writes[m - |ws|]);
          }
        }
        if goesOn {
          SubkeysJustified(k, done + [sk.(key := c.key)], ws');
        }
      } else if goesOn {
        SubkeysJustified(k, done + [sk], ws);
      }
    }
  }

  /// The writes of the value loop started at `j` each rewrite a matching value of the
  /// key itself, at or after `j`.
  lemma {:induction false} ValuesJustified(k: Key, j: nat)
    requires j <= |k.values|
    ensures forall m :: 0 <= m < |WalkValues(k, j, []).writes| ==>
      OwnValueWrite(k.values, j, WalkValues(k, j, []).writes[m])
    decreases |k.values| - j
  {
    if j < |k.values| {
      var v := k.values[j];
      var w := Write([], j, NewData(v), v.writeStatus);
      if ValueFails(v) {
        ValuesStopHere(k, j, []);
        if v.enumStatus == Success && Matches(v) {
          assert [] + [w] == [w];
          assert OwnValueWrite(k.values, j, w);
        }
      } else if Matches(v) {
        ValuesGoOn(k, j, []);
        var k' := SetData(k, j, NewData(v));
        assert [] + [w] == [w];
        ValuesAfterWrites(k', j + 1, [w]);
        ValuesJustified(k', j + 1);
        var rest := WalkValues(k', j + 1, []).writes;
        assert OwnValueWrite(k.values, j, w);
        forall m | 1 <= m < 1 + |rest| ensures OwnValueWrite(k.values, j, ([w] + rest)[m]) {
          assert OwnValueWrite(k'.values, j + 1, rest[m - 1]);
          assert k'.values[rest[m - 1].index] == k.values[rest[m - 1].index];
        }
      } else {
        ValuesGoOn(k, j, []);
        ValuesJustified(k, j + 1);
      }
    }
  }

  // ---------------------------------------------------------------------------
  // A failed write-back is the last one

  /// Every write-back in `ws` but the last succeeded.
  ghost predicate StopsAtFailedWrite(ws: seq<Write>)
  {
    forall m :: 0 <= m < |ws| - 1 ==> ws[m].status == Success
  }

  ghost predicate AllSucceeded(ws: seq<Write>)
  {
    forall m :: 0 <= m < |ws| ==> ws[m].status == Success
  }

  /// A failed write-back ends the walk: no write-back follows it, and a walk that
  /// returns true had every write-back succeed.
  lemma {:induction false} WalkStopsAtFailedWrite(k: Key)
    ensures StopsAtFailedWrite(Walk(k).writes)
    ensures Walk(k).ok ==> AllSucceeded(Walk(k).writes)
    decreases k, 1
  {
    var s := WalkSubkeys(k, [], []);
    SubkeysStop(k, [], []);
    if s.ok {
      ValuesStop(s.key, 0, s.writes);
    }
  }

  lemma {:induction false} SubkeysStop(k: Key, done: seq<Subkey>, ws: seq<Write>)
    requires |done| <= |k.subkeys| && AllSucceeded(ws)
    ensures StopsAtFailedWrite(WalkSubkeys(k, done, ws).writes)
    ensures WalkSubkeys(k, done, ws).ok ==> AllSucceeded(WalkSubkeys(k, done, ws).writes)
    decreases k, 0, |k.subkeys| - |done|
  {
    var i := |done|;
    if i < |k.subkeys| {
      var sk := k.subkeys[i];
      var v := Visit(sk.key);
      if sk.enumStatus == Success && v.ok {
        SubkeyGoesOn(k, done, ws, i, v);
        if sk.key.open == Success {
          WalkStopsAtFailedWrite(sk.key);
        }
        var n := Nest([i], v.writes);
        assert AllSucceeded(ws + n) by {
          forall m | 0 <= m < |ws + n| ensures (ws + n)[m].status == Success {
            if m >= |ws| {
              assert n[m - |ws|].status == v.writes[m - |ws|].status;
            }
          }
        }
        SubkeysStop(k, done + [sk.(key := v.key)], ws + n);
      } else {
        SubkeysStopHere(k, done, ws);
        if sk.enumStatus == Success && sk.key.open == Success {
          WalkStopsAtFailedWrite(sk.key);
          var n := Nest([i], Walk(sk.key).writes);
          forall m | 0 <= m < |ws + n| - 1 ensures (ws + n)[m].status == Success {
            if m >= |ws| {
              assert n[m - |ws|].status == Walk(sk.key).writes[m - |ws|].status;
            }
          }
        }
      }
    }
  }

  lemma {:induction false} ValuesStop(k: Key, j: nat, ws: seq<Write>)
    requires j <= |k.values| && AllSucceeded(ws)
    ensures StopsAtFailedWrite(WalkValues(k, j, ws).writes)
    ensures WalkValues(k, j, ws).ok ==> AllSucceeded(WalkValues(k, j, ws).writes)
    decreases |k.values| - j
  {
    if j < |k.values| {
      var v := k.values[j];
      if ValueFails(v) {
        ValuesStopHere(k, j, ws);
      } else {
        ValuesGoOn(k, j, ws);
        if Matches(v) {
          ValuesStop(SetData(k, j, NewData(v)), j + 1, ws + [Write([], j, NewData(v), v.writeStatus)]);
        } else {
          ValuesStop(k, j + 1, ws);
        }
      }
    }
  }

  // ---------------------------------------------------------------------------
  // A hard error stops the walk at once

  /// Subkeys after a failing one play no part: the walk gives the same outcome and
  /// writes as without them, and leaves them and the key's values as they were. The
  /// key's values are not examined either: with any other values `us` in their place
  /// the outcome, the writes and the subkeys left behind are the same.
  lemma FailureSkipsLaterSiblings(open: Status, s1: seq<Subkey>, s2: seq<Subkey>, vs: seq<Value>,
                                  us: seq<Value>)
    requires exists i :: 0 <= i < |s1| && SubkeyFails(s1[i])
    ensures var a := Walk(Key(open, s1 + s2, vs));
      var b := Walk(Key(open, s1, vs));
      !a.ok && !b.ok && a.writes == b.writes && a.key == Key(open, b.key.subkeys + s2, vs)
    ensures var a := Walk(Key(open, s1 + s2, vs));
      var c := Walk(Key(open, s1, us));
      !c.ok && a.writes == c.writes && a.key == Key(open, c.key.subkeys + s2, vs)
  {
    SubkeysPrefix(open, s1, s2, vs, [], []);
    SubkeysIgnoreValues(Key(open, s1, vs), us, [], []);
  }

  lemma {:induction false} SubkeysPrefix(open: Status, s1: seq<Subkey>, s2: seq<Subkey>, vs: seq<Value>,
                                         done: seq<Subkey>, ws: seq<Write>)
    requires |done| <= |s1|
    requires exists i :: |done| <= i < |s1| && SubkeyFails(s1[i])
    ensures var a := WalkSubkeys(Key(open, s1 + s2, vs), done, ws);
      var b := WalkSubkeys(Key(open, s1, vs), done, ws);
      !a.ok && !b.ok && a.writes == b.writes && a.key == Key(open, b.key.subkeys + s2, vs)
    decreases |s1| - |done|
  {
    var ka := Key(open, s1 + s2, vs);
    var kb := Key(open, s1, vs);
    var i := |done|;
    var sk := s1[i];
    assert ka.subkeys[i] == sk;
    WalkOkIff(sk.key);
    if sk.enumStatus == Success && (Tolerated(sk.key.open) || (sk.key.open == Success && Walk(sk.key).ok)) {
      assert !SubkeyFails(sk);
      SubkeysGoOn(ka, done, ws);
      SubkeysGoOn(kb, done, ws);
      if sk.key.open == Success {
        SubkeysPrefix(open, s1, s2, vs, done + [sk.(key := Walk(sk.key).key)], ws + Nest([i], Walk(sk.key).writes));
      } else {
        SubkeysPrefix(open, s1, s2, vs, done + [sk], ws);
      }
    } else {
      SubkeysPrefixStop(open, s1, s2, vs, done, ws);
    }
  }

  /// The base case of `SubkeysPrefix`: the subkey at `|done|` stops both walks.
  lemma SubkeysPrefixStop(open: Status, s1: seq<Subkey>, s2: seq<Subkey>, vs: seq<Value>,
                          done: seq<Subkey>, ws: seq<Write>)
    requires |done| < |s1|
    requires var sk := s1[|done|];
      !(sk.enumStatus == Success && (Tolerated(sk.key.open) || (sk.key.open == Success && Walk(sk.key).ok)))
    ensures var a := WalkSubkeys(Key(open, s1 + s2, vs), done, ws);
      var b := WalkSubkeys(Key(open, s1, vs), done, ws);
      !a.ok && !b.ok && a.writes == b.writes && a.key == Key(open, b.key.subkeys + s2, vs)
  {
    var ka := Key(open, s1 + s2, vs);
    var kb := Key(open, s1, vs);
    var i := |done|;
    assert ka.subkeys[i] == s1[i];
    SubkeysStopHere(ka, done, ws);
    SubkeysStopHere(kb, done, ws);
    assert ka.subkeys[i..] == kb.subkeys[i..] + s2;
    assert ka.subkeys[i + 1..] == kb.subkeys[i + 1..] + s2;
  }

  /// Values after a failing one play no part: the walk gives the same outcome and
  /// writes as without them, and leaves them as they were.
  lemma FailureSkipsLaterValues(open: Status, ss: seq<Subkey>, v1: seq<Value>, v2: seq<Value>)
    requires exists j :: 0 <= j < |v1| && ValueFails(v1[j])
    ensures var a := Walk(Key(open, ss, v1 + v2));
      var b := Walk(Key(open, ss, v1));
      !a.ok && !b.ok && a.writes == b.writes && a.key == b.key.(values := b.key.values + v2)
  {
    var ka := Key(open, ss, v1 + v2);
    var kb := Key(open, ss, v1);
    SubkeysIgnoreValues(kb, v1 + v2, [], []);
    assert ka == kb.(values := v1 + v2);
    var sb := WalkSubkeys(kb, [], []);
    if sb.ok {
      ValuesPrefix(sb.key, v2, 0, sb.writes);
      assert sb.key.(values := sb.key.values + v2) == WalkSubkeys(ka, [], []).key;
    }
  }

  /// The subkey loop does not look at the key's values.
  lemma {:induction false} SubkeysIgnoreValues(k: Key, vs: seq<Value>, done: seq<Subkey>, ws: seq<Write>)
    requires |done| <= |k.subkeys|
    ensures var a := WalkSubkeys(k.(values := vs), done, ws);
      var b := WalkSubkeys(k, done, ws);
      a.ok == b.ok && a.writes == b.writes && a.key == b.key.(values := vs)
    decreases |k.subkeys| - |done|
  {
    var i := |done|;
    if i < |k.subkeys| {
      var sk := k.subkeys[i];
      if sk.enumStatus == Success && sk.key.open == Success {
        var c := Walk(sk.key);
        if c.ok {
          SubkeysIgnoreValues(k, vs, done + [sk.(key := c.key)], ws + Nest([i], c.writes));
        }
      } else if sk.enumStatus == Success && Tolerated(sk.key.open) {
        SubkeysIgnoreValues(k, vs, done + [sk], ws);
      }
    }
  }

  lemma {:induction false} ValuesPrefix(k: Key, v2: seq<Value>, j: nat, ws: seq<Write>)
    requires j <= |k.values|
    requires exists m :: j <= m < |k.values| && ValueFails(k.values[m])
    ensures var a := WalkValues(k.(values := k.values + v2), j, ws);
      var b := WalkValues(k, j, ws);
      !a.ok && !b.ok && a.writes == b.writes && a.key == b.key.(values := b.key.values + v2)
    decreases |k.values| - j
  {
    var ka := k.(values := k.values + v2);
    var m :| j <= m < |k.values| && ValueFails(k.values[m]);
    var v := k.values[j];
    assert ka.values[j] == v;
    if ValueFails(v) {
      ValuesStopHere(ka, j, ws);
      ValuesStopHere(k, j, ws);
    } else {
      ValuesGoOn(ka, j, ws);
      ValuesGoOn(k, j, ws);
      if Matches(v) {
        var d := NewData(v);
        var k' := SetData(k, j, d);
        SetDataAppend(k, v2, j, d);
        assert k'.values[m] == k.values[m];
        ValuesPrefix(k', v2, j + 1, ws + [Write([], j, d, v.writeStatus)]);
      } else {
        ValuesPrefix(k, v2, j + 1, ws);
      }
    }
  }

  /// Writing a value and appending values commute.
  lemma SetDataAppend(k: Key, v2: seq<Value>, j: nat, d: string)
    requires j < |k.values|
    ensures SetData(k.(values := k.values + v2), j, d) == SetData(k, j, d).(values := SetData(k, j, d).values + v2)
  {
    var a := SetData(k.(values := k.values + v2), j, d).values;
    var b := SetData(k, j, d).values + v2;
    assert |a| == |b|;
    forall m | 0 <= m < |a| ensures a[m] == b[m] {
    }
  }

  // ---------------------------------------------------------------------------
  // A second run finds nothing to do

  /// A rewritten value no longer matches, rewriting it again changes nothing, and it
  /// aborts the walk only if the original did.
  lemma RewrittenValueSettled(v: Value)
    ensures !Matches(RewriteValue(v))
    ensures RewriteValue(RewriteValue(v)) == RewriteValue(v)
    ensures ValueFails(RewriteValue(v)) ==> ValueFails(v)
  {
    if Matches(v) {
      var d := NewData(v);
      NoFromNameLeft(CStr(v.data));
      ContainsPrefix(CStr(d), d, FromName);
    }
  }

  lemma {:induction false} RewriteValuesAt(vs: seq<Value>)
    ensures forall j :: 0 <= j < |vs| ==> RewriteValues(vs)[j] == RewriteValue(vs[j])
    decreases |vs|
  {
    if vs != [] {
      RewriteValuesAt(vs[1..]);
    }
  }

  lemma {:induction false} RewrittenSubkeysAt(k: Key, i: nat)
    requires i <= |k.subkeys|
    ensures |RewrittenSubkeys(k, i)| == |k.subkeys| - i
    ensures forall m :: i <= m < |k.subkeys| ==>
      RewrittenSubkeys(k, i)[m - i] ==
        if k.subkeys[m].key.open == Success then k.subkeys[m].(key := Rewritten(k.subkeys[m].key))
        else k.subkeys[m]
    decreases |k.subkeys| - i
  {
    if i < |k.subkeys| {
      RewrittenSubkeysAt(k, i + 1);
    }
  }

  lemma {:induction false} CountMatchesZero(vs: seq<Value>)
    requires forall j :: 0 <= j < |vs| ==> !Matches(vs[j])
    ensures CountMatches(vs) == 0
    decreases |vs|
  {
    if vs != [] {
      CountMatchesZero(vs[1..]);
    }
  }

  lemma {:induction false} SubtreeMatchesZero(k: Key, i: nat)
    requires i <= |k.subkeys|
    requires forall m :: i <= m < |k.subkeys| && k.subkeys[m].key.open == Success ==>
      MatchCount(k.subkeys[m].key) == 0
    ensures SubtreeMatches(k, i) == 0
    decreases |k.subkeys| - i
  {
    if i < |k.subkeys| {
      SubtreeMatchesZero(k, i + 1);
    }
  }

  /// The registry a complete walk leaves is settled: walking it again would rewrite
  /// nothing and count nothing.
  lemma {:induction false} RewrittenSettled(k: Key)
    ensures Rewritten(Rewritten(k)) == Rewritten(k)
    ensures MatchCount(Rewritten(k)) == 0
    decreases k, 1
  {
    var k2 := Rewritten(k);
    RewrittenSubkeysAt(k, 0);
    RewrittenSubkeysAt(k2, 0);
    forall m | 0 <= m < |k.subkeys|
      ensures Rewritten(k2).subkeys[m] == k2.subkeys[m]
      ensures k2.subkeys[m].key.open == Success ==> MatchCount(k2.subkeys[m].key) == 0
    {
      SubkeySettled(k, m);
    }
    assert Rewritten(k2).subkeys == k2.subkeys;
    SubtreeMatchesZero(k2, 0);
    ValuesSettled(k.values);
  }

  /// `RewrittenSettled` for subkey `m` of `k`.
  lemma {:induction false} SubkeySettled(k: Key, m: nat)
    requires m < |k.subkeys|
    ensures |Rewritten(k).subkeys| == |Rewritten(Rewritten(k)).subkeys| == |k.subkeys|
    ensures var x := Rewritten(k).subkeys[m];
      Rewritten(Rewritten(k)).subkeys[m] == x && (x.key.open == Success ==> MatchCount(x.key) == 0)
    decreases k, 0
  {
    var k2 := Rewritten(k);
    var sk := k.subkeys[m];
    RewrittenSubkeysAt(k, 0);
    RewrittenSubkeysAt(k2, 0);
    assert k2.subkeys[m] == RewrittenSubkeys(k, 0)[m - 0];
    assert Rewritten(k2).subkeys[m] == RewrittenSubkeys(k2, 0)[m - 0];
    if sk.key.open == Success {
      RewrittenSettled(sk.key);
    }
  }

  /// Rewriting adds no hard error: the rewritten registry holds one only where the
  /// original did.
  lemma {:induction false} RewrittenKeepsOk(k: Key)
    ensures Fails(Rewritten(k)) ==> Fails(k)
    decreases k
  {
    var k2 := Rewritten(k);
    if exists i :: 0 <= i < |k2.subkeys| && SubkeyFails(k2.subkeys[i]) {
      var i :| 0 <= i < |k2.subkeys| && SubkeyFails(k2.subkeys[i]);
      RewrittenSubkeysAt(k, 0);
      var sk := k.subkeys[i];
      assert k2.subkeys[i] == RewrittenSubkeys(k, 0)[i - 0];
      if sk.key.open == Success {
        RewrittenKeepsOk(sk.key);
      }
      assert SubkeyFails(k.subkeys[i]);
    } else if exists j :: 0 <= j < |k2.values| && ValueFails(k2.values[j]) {
      var j :| 0 <= j < |k2.values| && ValueFails(k2.values[j]);
      ValuesSettled(k.values);
      assert ValueFails(k.values[j]);
    }
  }

  /// `RewrittenSettled` for the values of one key.
  lemma ValuesSettled(vs: seq<Value>)
    ensures RewriteValues(RewriteValues(vs)) == RewriteValues(vs)
    ensures CountMatches(RewriteValues(vs)) == 0
    ensures forall j :: 0 <= j < |vs| && ValueFails(RewriteValues(vs)[j]) ==> ValueFails(vs[j])
  {
    var vs2 := RewriteValues(vs);
    RewriteValuesAt(vs);
    RewriteValuesAt(vs2);
    forall j | 0 <= j < |vs|
      ensures !Matches(vs2[j]) && RewriteValues(vs2)[j] == vs2[j]
      ensures ValueFails(vs2[j]) ==> ValueFails(vs[j])
    {
      RewrittenValueSettled(vs[j]);
    }
    CountMatchesZero(vs2);
  }

  /// Running the tool again over what a successful run left succeeds, writes nothing
  /// and leaves the registry as it is.
  lemma SecondRunNoOp(k: Key)
    ensures var k2 := Walk(k).key;
      Walk(k).ok ==> Walk(k2).ok && Walk(k2).key == k2 && Walk(k2).writes == []
  {
    if Walk(k).ok {
      var k2 := Walk(k).key;
      WalkSucceeds(k);
      WalkOkIff(k);
      RewrittenSettled(k);
      RewrittenKeepsOk(k);
      WalkOkIff(k2);
      WalkSucceeds(k2);
    }
  }
}
