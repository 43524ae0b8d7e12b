/// Find-and-replace over wide strings, as `Replace` in move_homedir.cpp does it.
///
/// `Find` is the search of `std::wstring::find(needle, pos)`, `ReplaceAll` is the
/// reference definition of leftmost, non-overlapping replace-all, and the method
/// `Replace` is the source's loop, proved equal to `ReplaceAll` of the original string.
module StringReplace {

  datatype Option<T> = None | Some(value: T)

  /// `n` occurs in `s` starting at index `i`.
  predicate OccursAt(s: seq<char>, n: seq<char>, i: nat)
  {
    i + |n| <= |s| && s[i..i + |n|] == n
  }

  /// `n` occurs somewhere in `s` (what `wcsstr(s, n) != NULL` asks).
  ghost predicate Occurs(s: seq<char>, n: seq<char>)
  {
    exists i: nat :: OccursAt(s, n, i)
  }

  /// `std::wstring::find(n, from)`: the lowest index at or after `from` where `n`
  /// occurs, or `None` (npos). An empty `n` is found at `from` whenever `from <= |s|`.
  function Find(s: seq<char>, n: seq<char>, from: nat): (r: Option<nat>)
    ensures r.Some? ==> from <= r.value && OccursAt(s, n, r.value)
    ensures r.Some? ==> forall j: nat :: from <= j < r.value ==> !OccursAt(s, n, j)
    ensures r.None? ==> forall j: nat :: from <= j ==> !OccursAt(s, n, j)
    decreases |s| - from
  {
    if from + |n| > |s| then None
    else if s[from..from + |n|] == n then Some(from)
    else Find(s, n, from + 1)
  }

  /// `wcsstr(s, n) != NULL`: the search from the start succeeds exactly when `n` occurs.
  function Contains(s: seq<char>, n: seq<char>): (b: bool)
    ensures b <==> Occurs(s, n)
  {
    var r := Find(s, n, 0);
    if r.Some? then
      assert OccursAt(s, n, r.value);
      true
    else
      false
  }

  /// Leftmost, non-overlapping replace-all of `n` by `r` in `s`: the scan resumes
  /// after each replaced occurrence and never looks at inserted text.
  function ReplaceAll(s: seq<char>, n: seq<char>, r: seq<char>): seq<char>
    requires |n| > 0
    decreases |s|
  {
    if |s| < |n| then s
    else if s[..|n|] == n then r + ReplaceAll(s[|n|..], n, r)
    else [s[0]] + ReplaceAll(s[1..], n, r)
  }

  /// Number of occurrences the leftmost, non-overlapping scan replaces.
  function Count(s: seq<char>, n: seq<char>): nat
    requires |n| > 0
    decreases |s|
  {
    if |s| < |n| then 0
    else if s[..|n|] == n then 1 + Count(s[|n|..], n)
    else Count(s[1..], n)
  }

  lemma OccursAtTail(s: seq<char>, n: seq<char>, a: nat, j: nat)
    requires a <= |s|
    ensures OccursAt(s[a..], n, j) <==> OccursAt(s, n, a + j)
  {
    if a + j + |n| <= |s| {
      assert s[a..][j..j + |n|] == s[a + j..a + j + |n|];
    }
  }

  /// Without an occurrence of `n`, replace-all is the identity.
  lemma {:induction false} ReplaceAllNoMatch(s: seq<char>, n: seq<char>, r: seq<char>)
    requires |n| > 0
    requires forall j: nat :: !OccursAt(s, n, j)
    ensures ReplaceAll(s, n, r) == s
    decreases |s|
  {
    if |s| >= |n| {
      assert !OccursAt(s, n, 0);
      forall j: nat ensures !OccursAt(s[1..], n, j) {
        OccursAtTail(s, n, 1, j);
      }
      ReplaceAllNoMatch(s[1..], n, r);
      assert s == [s[0]] + s[1..];
    }
  }

  /// One step of the scan where `s` does not start with `n`.
  lemma ReplaceAllSkip(s: seq<char>, n: seq<char>, r: seq<char>)
    requires |n| > 0 && |s| >= |n| && !OccursAt(s, n, 0)
    ensures ReplaceAll(s, n, r) == [s[0]] + ReplaceAll(s[1..], n, r)
  {
    assert s[..|n|] != n;
  }

  /// Occurrences before `k` in `s` shift to occurrences before `k - 1` in `s[1..]`.
  lemma NoEarlierInTail(s: seq<char>, n: seq<char>, k: nat)
    requires 0 < k && 1 <= |s|
    requires forall j: nat :: j < k ==> !OccursAt(s, n, j)
    ensures forall j: nat :: j < k - 1 ==> !OccursAt(s[1..], n, j)
  {
    forall j: nat | j < k - 1 ensures !OccursAt(s[1..], n, j) {
      OccursAtTail(s, n, 1, j);
    }
  }

  /// When the leftmost occurrence of `n` starts at `k`, replace-all keeps `s[..k]`,
  /// emits `r` and carries on after the occurrence.
  lemma {:induction false} ReplaceAllFirstMatch(s: seq<char>, n: seq<char>, r: seq<char>, k: nat)
    requires |n| > 0
    requires OccursAt(s, n, k)
    requires forall j: nat :: j < k ==> !OccursAt(s, n, j)
    ensures ReplaceAll(s, n, r) == s[..k] + r + ReplaceAll(s[k..][|n|..], n, r)
    decreases k
  {
    if k == 0 {
      FirstMatchAtStart(s, n, r);
    } else {
      assert !OccursAt(s, n, 0);
      OccursAtTail(s, n, 1, k - 1);
      NoEarlierInTail(s, n, k);
      ReplaceAllFirstMatch(s[1..], n, r, k - 1);
      FirstMatchLater(s, n, r, k);
    }
  }

  lemma FirstMatchAtStart(s: seq<char>, n: seq<char>, r: seq<char>)
    requires |n| > 0 && OccursAt(s, n, 0)
    ensures ReplaceAll(s, n, r) == s[..0] + r + ReplaceAll(s[0..][|n|..], n, r)
  {
    assert s[..|n|] == n;
    assert s[..0] + r == r;
    assert s[0..] == s;
  }

  /// The step of `ReplaceAllFirstMatch` for an occurrence after the first character.
  lemma FirstMatchLater(s: seq<char>, n: seq<char>, r: seq<char>, k: nat)
    requires |n| > 0 && 0 < k && k + |n| <= |s| && !OccursAt(s, n, 0)
    requires ReplaceAll(s[1..], n, r) == s[1..][..k - 1] + r + ReplaceAll(s[1..][k - 1..][|n|..], n, r)
    ensures ReplaceAll(s, n, r) == s[..k] + r + ReplaceAll(s[k..][|n|..], n, r)
  {
    ReplaceAllSkip(s, n, r);
    assert s[1..][k - 1..] == s[k..];
    SpliceFront(s, k, r, ReplaceAll(s[k..][|n|..], n, r));
  }

  lemma SpliceFront(s: seq<char>, k: nat, r: seq<char>, b: seq<char>)
    requires 0 < k <= |s|
    ensures [s[0]] + (s[1..][..k - 1] + r + b) == s[..k] + r + b
  {
    assert [s[0]] + s[1..][..k - 1] == s[..k];
  }

  /// Each replaced occurrence changes the length by `|r| - |n|`.
  lemma {:induction false} ReplaceAllLength(s: seq<char>, n: seq<char>, r: seq<char>)
    requires |n| > 0
    ensures |ReplaceAll(s, n, r)| == |s| + Count(s, n) * (|r| - |n|)
    decreases |s|
  {
    var d := |r| - |n|;
    if |s| < |n| {
    } else if s[..|n|] == n {
      ReplaceAllLength(s[|n|..], n, r);
      MatchLength(s, n, r, Count(s[|n|..], n), |ReplaceAll(s[|n|..], n, r)|);
    } else {
      ReplaceAllLength(s[1..], n, r);
    }
  }

  /// The length step of `ReplaceAllLength` at a match, with the recursive result's
  /// length `m` and count `c` as plain numbers.
  lemma MatchLength(s: seq<char>, n: seq<char>, r: seq<char>, c: nat, m: int)
    requires 0 < |n| <= |s| && s[..|n|] == n
    requires c == Count(s[|n|..], n) && m == |ReplaceAll(s[|n|..], n, r)|
    requires m == |s| - |n| + c * (|r| - |n|)
    ensures |ReplaceAll(s, n, r)| == |s| + Count(s, n) * (|r| - |n|)
  {
    assert |ReplaceAll(s, n, r)| == |r| + m;
    MulStep(Count(s, n), c, |r| - |n|);
  }

  lemma MulStep(a: int, c: int, d: int)
    requires a == 1 + c
    ensures a * d == d + c * d
  {
  }

  /// The scan replaces something exactly when the needle occurs.
  lemma {:induction false} CountPositive(s: seq<char>, n: seq<char>)
    requires |n| > 0
    ensures Count(s, n) > 0 <==> Occurs(s, n)
    decreases |s|
  {
    if |s| < |n| {
      forall j: nat ensures !OccursAt(s, n, j) { }
    } else if s[..|n|] == n {
      assert OccursAt(s, n, 0);
    } else {
      CountPositive(s[1..], n);
      if Occurs(s[1..], n) {
        var j: nat :| OccursAt(s[1..], n, j);
        OccursAtTail(s, n, 1, j);
      } else {
        forall j: nat ensures !OccursAt(s, n, j) {
          if j > 0 { OccursAtTail(s, n, 1, j - 1); }
        }
      }
    }
  }

  /// Replacing the needle by itself gives back the original string.
  lemma {:induction false} ReplaceAllSelf(s: seq<char>, n: seq<char>)
    requires |n| > 0
    ensures ReplaceAll(s, n, n) == s
    decreases |s|
  {
    if |s| < |n| {
    } else if s[..|n|] == n {
      ReplaceAllSelf(s[|n|..], n);
      assert s == s[..|n|] + s[|n|..];
    } else {
      ReplaceAllSelf(s[1..], n);
      assert s == [s[0]] + s[1..];
    }
  }

  lemma ProductNonZero(c: int, d: int)
    requires c > 0 && d != 0
    ensures c * d != 0
  {
    if d > 0 { assert c * d >= d; } else { assert c * d <= d; }
  }

  /// A replacement of another length changes the length of a string that holds the needle.
  lemma ChangedLength(s: seq<char>, n: seq<char>, r: seq<char>)
    requires |n| > 0 && |r| != |n| && Occurs(s, n)
    ensures |ReplaceAll(s, n, r)| != |s|
  {
    ReplaceAllLength(s, n, r);
    CountPositive(s, n);
    ProductNonZero(Count(s, n), |r| - |n|);
  }

  /// A replacement of the same length, but different, shows up where the needle was first found.
  lemma ChangedAtFirstMatch(s: seq<char>, n: seq<char>, r: seq<char>, k: nat)
    requires |n| > 0 && |r| == |n| && r != n
    requires OccursAt(s, n, k) && forall j: nat :: j < k ==> !OccursAt(s, n, j)
    ensures ReplaceAll(s, n, r) != s
  {
    ReplaceAllFirstMatch(s, n, r, k);
    var out := ReplaceAll(s, n, r);
    assert out[k..k + |n|] == r;
  }

  /// The result equals the input exactly when nothing is found or the replacement is
  /// the needle itself.
  lemma ReplaceAllUnchanged(s: seq<char>, n: seq<char>, r: seq<char>)
    requires |n| > 0
    ensures ReplaceAll(s, n, r) == s <==> (r == n || !Occurs(s, n))
  {
    if r == n {
      ReplaceAllSelf(s, n);
    } else if !Occurs(s, n) {
      ReplaceAllNoMatch(s, n, r);
    } else if |r| != |n| {
      ChangedLength(s, n, r);
    } else {
      ChangedAtFirstMatch(s, n, r, Find(s, n, 0).value);
    }
  }

  /// `std::wstring::find` with an empty needle always succeeds at `pos` while
  /// `pos <= |value|`, and a round keeps `pos <= |value|`: with an empty needle the
  /// loop of `Replace` never reaches its exit.
  lemma EmptyNeedleNeverStops(value: seq<char>, r: seq<char>, pos: nat)
    requires pos <= |value|
    ensures Find(value, [], pos) == Some(pos)
    ensures var next := value[..pos] + r + value[pos..];
      pos + |r| <= |next| && Find(next, [], pos + |r|) == Some(pos + |r|)
  {
    assert OccursAt(value, [], pos);
    var next := value[..pos] + r + value[pos..];
    assert OccursAt(next, [], pos + |r|);
  }

  /// The loop's exit: with no occurrence at or after `pos`, the rest stays as it is.
  lemma ScanDone(value: seq<char>, n: seq<char>, r: seq<char>, pos: nat)
    requires |n| > 0 && pos <= |value|
    requires forall j: nat :: pos <= j ==> !OccursAt(value, n, j)
    ensures value[..pos] + ReplaceAll(value[pos..], n, r) == value
  {
    forall j: nat ensures !OccursAt(value[pos..], n, j) {
      OccursAtTail(value, n, pos, j);
    }
    ReplaceAllNoMatch(value[pos..], n, r);
    assert value == value[..pos] + value[pos..];
  }

  /// The part of the string from `pos` on, when its first occurrence is at `p`.
  lemma ScanFromFirstMatch(value: seq<char>, n: seq<char>, r: seq<char>, pos: nat, p: nat)
    requires |n| > 0 && pos <= p
    requires OccursAt(value, n, p)
    requires forall j: nat :: pos <= j < p ==> !OccursAt(value, n, j)
    ensures ReplaceAll(value[pos..], n, r) == value[pos..p] + r + ReplaceAll(value[p + |n|..], n, r)
  {
    var rest := value[pos..];
    OccursAtTail(value, n, pos, p - pos);
    forall j: nat | j < p - pos ensures !OccursAt(rest, n, j) {
      OccursAtTail(value, n, pos, j);
    }
    ReplaceAllFirstMatch(rest, n, r, p - pos);
    assert rest[..p - pos] == value[pos..p];
    assert rest[p - pos..][|n|..] == value[p + |n|..];
  }

  /// The splice performed by `std::wstring::replace(p, m, r)`, seen from position `p + |r|`.
  lemma Splice(value: seq<char>, r: seq<char>, pos: nat, p: nat, m: nat, tail: seq<char>)
    requires pos <= p && p + m <= |value|
    ensures var next := value[..p] + r + value[p + m..];
      p + |r| <= |next| &&
      next[p + |r|..] == value[p + m..] &&
      next[..p + |r|] + tail == value[..pos] + (value[pos..p] + r + tail)
  {
    var next := value[..p] + r + value[p + m..];
    assert next[..p + |r|] == value[..p] + r;
    assert value[..pos] + value[pos..p] == value[..p];
  }

  /// One round of the loop: splicing `r` in at the first occurrence `p` at or after
  /// `pos` and resuming at `p + |r|` leaves the final result unchanged.
  lemma ScanStep(value: seq<char>, n: seq<char>, r: seq<char>, pos: nat, p: nat)
    requires |n| > 0 && pos <= p
    requires OccursAt(value, n, p)
    requires forall j: nat :: pos <= j < p ==> !OccursAt(value, n, j)
    ensures var next := value[..p] + r + value[p + |n|..];
      p + |r| <= |next| &&
      next[..p + |r|] + ReplaceAll(next[p + |r|..], n, r)
        == value[..pos] + ReplaceAll(value[pos..], n, r)
  {
    ScanFromFirstMatch(value, n, r, pos, p);
    Splice(value, r, pos, p, |n|, ReplaceAll(value[p + |n|..], n, r));
  }

  /// `Replace` (move_homedir.cpp): works on a copy of `haystack`; each round finds the
  /// needle at or after `pos`, splices in the replacement and resumes after it, so
  /// inserted text is never searched again.
  method Replace(haystack: seq<char>, needle: seq<char>, replacement: seq<char>)
    returns (value: seq<char>)
    requires |needle| > 0
    ensures value == ReplaceAll(haystack, needle, replacement)
  {
    value := haystack;
    var pos: nat := 0;
    while true
      invariant pos <= |value|
      invariant value[..pos] + ReplaceAll(value[pos..], needle, replacement)
             == ReplaceAll(haystack, needle, replacement)
      decreases |value| - pos
    {
      var found := Find(value, needle, pos);
      if found.None? {
        ScanDone(value, needle, replacement, pos);
        break;
      }
      var p := found.value;
      ScanStep(value, needle, replacement, pos, p);
      value, pos := value[..p] + replacement + value[p + |needle|..], p + |replacement|;
    }
  }

  // ---------------------------------------------------------------------------
  // Does an occurrence survive?

  /// In general replace-all can leave the needle behind: replacing `ab` by `a` in
  /// `aabb` gives `aab`, which still contains `ab`, so a second pass would change it.
  lemma ReplaceAllCanLeaveNeedle()
    ensures ReplaceAll("aabb", "ab", "a") == "aab"
    ensures Contains("aab", "ab")
    ensures ReplaceAll("aab", "ab", "a") != "aab"
  {
    assert ReplaceAll("b", "ab", "a") == "b";
    assert "abb"[..2] == "ab" && "abb"[2..] == "b";
    assert ReplaceAll("abb", "ab", "a") == "ab";
    assert "aabb"[..2][1] != "ab"[1] && "aabb"[1..] == "abb";
    assert OccursAt("aab", "ab", 1);
    assert "aab"[..2] != "ab" && "aab"[1..] == "ab";
    assert "ab"[..2] == "ab" && "ab"[2..] == [];
    assert ReplaceAll("ab", "ab", "a") == "a";
  }

  /// If the output of replace-all starts with `p`, and `p` does not contain the first
  /// character of the replacement, then the input already started with `p`: every
  /// inserted replacement starts with a character that `p` lacks.
  lemma {:induction false} PrefixFromInput(t: seq<char>, n: seq<char>, r: seq<char>, p: seq<char>)
    requires |n| > 0 && |r| > 0
    requires forall k :: 0 <= k < |p| ==> p[k] != r[0]
    ensures |p| <= |ReplaceAll(t, n, r)| && ReplaceAll(t, n, r)[..|p|] == p ==>
      |p| <= |t| && t[..|p|] == p
    decreases |t|
  {
    if p != [] && |t| >= |n| {
      if t[..|n|] == n {
        assert ReplaceAll(t, n, r)[0] == r[0];
      } else {
        var x := ReplaceAll(t[1..], n, r);
        assert ReplaceAll(t, n, r) == [t[0]] + x;
        PrefixFromInput(t[1..], n, r, p[1..]);
        if |p| <= |t| {
          assert t[..|p|][0] == t[0] && t[..|p|][1..] == t[1..][..|p| - 1];
          assert t[..|p|] == [t[0]] + t[1..][..|p| - 1];
        }
        if |p| <= |x| + 1 {
          assert ([t[0]] + x)[..|p|] == [t[0]] + x[..|p| - 1];
        }
      }
    }
  }

  /// Replace-all leaves no occurrence of `n` when `n`'s first character occurs
  /// nowhere else in `n`, the replacement starts with that character and has it
  /// nowhere else, and the replacement disagrees with `n` at some index both have.
  lemma {:induction false} NoOccurrenceLeft(s: seq<char>, n: seq<char>, r: seq<char>, d: nat)
    requires |n| > 0 && |r| > 0 && r[0] == n[0]
    requires forall k :: 0 < k < |n| ==> n[k] != n[0]
    requires forall k :: 0 < k < |r| ==> r[k] != n[0]
    requires d < |n| && d < |r| && r[d] != n[d]
    ensures forall i: nat :: !OccursAt(ReplaceAll(s, n, r), n, i)
    decreases |s|
  {
    var out := ReplaceAll(s, n, r);
    if |s| >= |n| {
      if s[..|n|] == n {
        var x := ReplaceAll(s[|n|..], n, r);
        NoOccurrenceLeft(s[|n|..], n, r, d);
        assert out == r + x;
        forall i: nat ensures !OccursAt(out, n, i) {
          if i >= |r| {
            OccursAtTail(out, n, |r|, i - |r|);
            assert out[|r|..] == x;
          } else if i > 0 && i + |n| <= |out| {
            assert out[i..i + |n|][0] == r[i];
          } else if i == 0 && |n| <= |out| {
            assert out[..|n|][d] == r[d];
          }
        }
      } else {
        var x := ReplaceAll(s[1..], n, r);
        NoOccurrenceLeft(s[1..], n, r, d);
        assert out == [s[0]] + x;
        forall i: nat ensures !OccursAt(out, n, i) {
          if i >= 1 {
            OccursAtTail(out, n, 1, i - 1);
            assert out[1..] == x;
          } else if |n| <= |out| {
            assert s[..|n|] == [s[0]] + s[1..][..|n| - 1];
            PrefixFromInput(s[1..], n, r, n[1..]);
            assert out[..|n|] == [s[0]] + x[..|n| - 1];
          }
        }
      }
    }
  }

  /// An occurrence in a prefix is an occurrence in the whole string.
  lemma ContainsPrefix(a: seq<char>, b: seq<char>, n: seq<char>)
    requires |a| <= |b| && a == b[..|a|]
    ensures Contains(a, n) ==> Contains(b, n)
  {
    if Contains(a, n) {
      var i: nat :| OccursAt(a, n, i);
      assert b[i..i + |n|] == a[i..i + |n|];
      assert OccursAt(b, n, i);
    }
  }
}
