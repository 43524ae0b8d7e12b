module Scenarios {
  import opened StringReplace
  import opened RegistryTree
  import opened WalkSpec

  lemma MovedPath()
    ensures ReplaceAll("C:\\" + FromName + "\\Documents", FromName, ToName) == "C:\\" + ToName + "\\Documents"
  {
    var pre, post := "C:\\", "\\Documents";
    var s := pre + FromName + post;
    assert s[3..13] == FromName;
    forall j: nat | j < 3 ensures !OccursAt(s, FromName, j) {
      assert s[j..j + 10][0] == pre[j] != FromName[0];
    }
    ReplaceAllFirstMatch(s, FromName, ToName, 3);
    assert s[..3] == pre;
    assert s[3..][10..] == post;
    forall j: nat ensures !OccursAt(post, FromName, j) {
      if j == 0 {
        assert post[0..10][0] != FromName[0];
      }
    }
    ReplaceAllNoMatch(post, FromName, ToName);
  }

  /// The value of the second scenario: the profile path of another user.
  lemma OtherPath()
    ensures !Contains(CStr("C:\\" + "Users\\other" + "\\Documents"), FromName)
  {
    var pre, mid, post := "C:\\", "Users\\other", "\\Documents";
    var s := pre + mid + post;
    forall j: nat ensures !OccursAt(s, FromName, j) {
      if j + 10 <= |s| {
        if j < 3 {
          assert s[j..j + 10][0] == pre[j] != FromName[0];
        } else if j == 3 {
          assert s[j..j + 10][6] == mid[6] != FromName[6];
        } else if j < 14 {
          assert s[j..j + 10][0] == mid[j - 3] != FromName[0];
        } else {
          assert s[j..j + 10][0] == post[j - 14] != FromName[0];
        }
      }
    }
    var c := CStr(s);
    forall j: nat ensures !OccursAt(c, FromName, j) {
      if OccursAt(c, FromName, j) {
        assert c[j..j + 10] == s[j..j + 10];
        assert OccursAt(s, FromName, j);
      }
    }
  }

  /// The second half of `TwoPaths`: one occurrence after a separator.
  lemma SecondPath()
    ensures ReplaceAll(";D:\\" + FromName, FromName, ToName) == ";D:\\" + ToName
  {
    var mid := ";D:\\";
    var t := mid + FromName;
    assert t[4..14] == FromName;
    forall j: nat | j < 4 ensures !OccursAt(t, FromName, j) {
      assert t[j..j + 10][0] == mid[j] != FromName[0];
    }
    ReplaceAllFirstMatch(t, FromName, ToName, 4);
    assert t[..4] == mid;
    assert t[4..][10..] == [];
    ReplaceAllNoMatch([], FromName, ToName);
  }

  /// Two occurrences of the old name are both replaced in one pass.
  lemma TwoPaths()
    ensures ReplaceAll("C:\\" + FromName + ";D:\\" + FromName, FromName, ToName) == "C:\\" + ToName + ";D:\\" + ToName
  {
    var pre, mid := "C:\\", ";D:\\";
    var s := pre + FromName + mid + FromName;
    assert s[3..13] == FromName;
    forall j: nat | j < 3 ensures !OccursAt(s, FromName, j) {
      assert s[j..j + 10][0] == pre[j] != FromName[0];
    }
    ReplaceAllFirstMatch(s, FromName, ToName, 3);
    assert s[..3] == pre;
    assert s[3..][10..] == mid + FromName;
    SecondPath();
  }

  /// A string without NUL characters is read whole.
  lemma CStrWhole(s: string)
    requires forall i :: 0 <= i < |s| ==> s[i] != '\0'
    ensures CStr(s) == s
  {
  }

  /// A key that opens and holds one value and no subkeys.
  lemma Leaf(v: Value)
    ensures var k := Key(Success, [], [v]);
      (Fails(k) <==> ValueFails(v)) && Rewritten(k) == Key(Success, [], [RewriteValue(v)]) &&
      MatchCount(k) == if Matches(v) then 1 else 0
  {
    var k := Key(Success, [], [v]);
    assert RewriteValues([v]) == [RewriteValue(v)] + RewriteValues([]);
    assert CountMatches([v]) == (if Matches(v) then 1 else 0) + CountMatches([]);
    assert Fails(k) ==> ValueFails(v);
    assert ValueFails(v) ==> ValueFails(k.values[0]);
  }

  /// A key that opens and holds one enumerable subkey and no values.
  lemma Parent(a: Subkey)
    requires a.enumStatus == Success
    ensures var k := Key(Success, [a], []);
      (Fails(k) <==> SubkeyFails(a)) &&
      Rewritten(k) == Key(Success, [if a.key.open == Success then a.(key := Rewritten(a.key)) else a], []) &&
      MatchCount(k) == if a.key.open == Success then MatchCount(a.key) else 0
  {
    var k := Key(Success, [a], []);
    assert RewrittenSubkeys(k, 1) == [];
    assert SubtreeMatches(k, 1) == 0;
    assert Fails(k) ==> SubkeyFails(a);
    assert SubkeyFails(a) ==> SubkeyFails(k.subkeys[0]);
  }

  /// A key that opens and holds two enumerable subkeys and no values.
  lemma Parent2(a: Subkey, b: Subkey)
    requires a.enumStatus == Success && b.enumStatus == Success
    ensures var k := Key(Success, [a, b], []);
      (Fails(k) <==> SubkeyFails(a) || SubkeyFails(b)) &&
      Rewritten(k) == Key(Success, [if a.key.open == Success then a.(key := Rewritten(a.key)) else a,
                                    if b.key.open == Success then b.(key := Rewritten(b.key)) else b], []) &&
      MatchCount(k) == (if a.key.open == Success then MatchCount(a.key) else 0)
                     + (if b.key.open == Success then MatchCount(b.key) else 0)
  {
    var k := Key(Success, [a, b], []);
    assert RewrittenSubkeys(k, 2) == [];
    assert RewrittenSubkeys(k, 1) == [if b.key.open == Success then b.(key := Rewritten(b.key)) else b];
    assert SubtreeMatches(k, 1) == if b.key.open == Success then MatchCount(b.key) else 0;
    assert SubtreeMatches(k, 2) == 0;
    assert Fails(k) ==> SubkeyFails(a) || SubkeyFails(b);
    assert SubkeyFails(a) ==> SubkeyFails(k.subkeys[0]);
    assert SubkeyFails(b) ==> SubkeyFails(k.subkeys[1]);
  }

  /// A value holding the old profile path, one subkey down: the walk succeeds, the value
  /// is rewritten to the new path and the counter goes up by one.
  lemma ScenarioMoved()
    ensures var v := Value(Success, "Path", Success, "C:\\" + FromName + "\\Documents", Success);
      var r := Walk(Key(Success, [Subkey(Success, "sub", Key(Success, [], [v]))], []));
      r.ok && |r.writes| == 1 &&
      r.key == Key(Success, [Subkey(Success, "sub", Key(Success, [], [v.(data := "C:\\" + ToName + "\\Documents")]))], [])
  {
    var data := "C:\\" + FromName + "\\Documents";
    var v := Value(Success, "Path", Success, data, Success);
    CStrWhole(data);
    MovedPath();
    assert OccursAt(data, FromName, 3) by { assert data[3..13] == FromName; }
    assert Matches(v);
    Leaf(v);
    Parent(Subkey(Success, "sub", Key(Success, [], [v])));
    var root := Key(Success, [Subkey(Success, "sub", Key(Success, [], [v]))], []);
    WalkOkIff(root);
    WalkSucceeds(root);
  }

  /// The same with another user's profile path: the walk succeeds, nothing is
  /// rewritten and the counter stays where it was.
  lemma ScenarioUnrelated()
    ensures var v := Value(Success, "Path", Success, "C:\\" + "Users\\other" + "\\Documents", Success);
      var root := Key(Success, [Subkey(Success, "sub", Key(Success, [], [v]))], []);
      var r := Walk(root);
      r.ok && r.writes == [] && r.key == root
  {
    var data := "C:\\" + "Users\\other" + "\\Documents";
    var v := Value(Success, "Path", Success, data, Success);
    OtherPath();
    assert !Matches(v);
    Leaf(v);
    Parent(Subkey(Success, "sub", Key(Success, [], [v])));
    var root := Key(Success, [Subkey(Success, "sub", Key(Success, [], [v]))], []);
    WalkOkIff(root);
    WalkSucceeds(root);
  }

  /// A subkey that cannot be opened for lack of rights is skipped: the walk goes on to
  /// the next sibling and rewrites its value.
  lemma ScenarioDeniedSkipped()
    ensures var v := Value(Success, "Path", Success, "C:\\" + FromName + "\\Documents", Success);
      var locked := Subkey(Success, "locked", Key(AccessDenied, [], []));
      var r := Walk(Key(Success, [locked, Subkey(Success, "sub", Key(Success, [], [v]))], []));
      r.ok && |r.writes| == 1 &&
      r.key == Key(Success, [locked, Subkey(Success, "sub", Key(Success, [], [v.(data := "C:\\" + ToName + "\\Documents")]))], [])
  {
    var data := "C:\\" + FromName + "\\Documents";
    var v := Value(Success, "Path", Success, data, Success);
    CStrWhole(data);
    MovedPath();
    assert OccursAt(data, FromName, 3) by { assert data[3..13] == FromName; }
    assert Matches(v);
    Leaf(v);
    var locked := Subkey(Success, "locked", Key(AccessDenied, [], []));
    assert !SubkeyFails(locked);
    Parent2(locked, Subkey(Success, "sub", Key(Success, [], [v])));
    var root := Key(Success, [locked, Subkey(Success, "sub", Key(Success, [], [v]))], []);
    WalkOkIff(root);
    WalkSucceeds(root);
  }

  /// A value naming the old profile twice: both occurrences are replaced in one
  /// write-back, and the counter goes up by one, not two.
  lemma ScenarioTwice()
    ensures var v := Value(Success, "Path", Success, "C:\\" + FromName + ";D:\\" + FromName, Success);
      var r := Walk(Key(Success, [], [v]));
      r.ok && |r.writes| == 1 &&
      r.key == Key(Success, [], [v.(data := "C:\\" + ToName + ";D:\\" + ToName)])
  {
    var data := "C:\\" + FromName + ";D:\\" + FromName;
    var v := Value(Success, "Path", Success, data, Success);
    CStrWhole(data);
    TwoPaths();
    assert OccursAt(data, FromName, 3) by { assert data[3..13] == FromName; }
    assert Matches(v);
    Leaf(v);
    WalkOkIff(Key(Success, [], [v]));
    WalkSucceeds(Key(Success, [], [v]));
  }

  /// A subkey that fails to open with any other error aborts the walk.
  lemma ScenarioOpenError()
    ensures !Walk(Key(Success, [Subkey(Success, "bad", Key(OtherError(6), [], []))], [])).ok
  {
    var bad := Subkey(Success, "bad", Key(OtherError(6), [], []));
    Parent(bad);
    WalkOkIff(Key(Success, [bad], []));
  }
}
