/**
 * The three functions of Go's strings package that the matcher relies on:
 * ReplaceAll (highlighting), Split (parsing an -attr argument) and Join (the
 * reference against which ReplaceAll is checked). A `char` stands for one
 * rune of the Go string.
 */
module GoStrings {

  /** `t` occurs in `s` starting at index `i`. */
  predicate OccursAt(s: string, t: string, i: nat)
  {
    i + |t| <= |s| && s[i..i + |t|] == t
  }

  /** `t` occurs somewhere in `s`. */
  predicate Contains(s: string, t: string)
  {
    exists i: nat | i <= |s| :: OccursAt(s, t, i)
  }

  /**
   * strings.ReplaceAll: scanning left to right, every non-overlapping
   * occurrence of a non-empty `target` is replaced by `repl`. An empty
   * `target` matches before every rune and once at the end.
   */
  function ReplaceAll(s: string, target: string, repl: string): (r: string)
    ensures target != [] && |repl| == |target| ==> |r| == |s|
    decreases |s|
  {
    if target == [] then InsertEverywhere(s, repl)
    else if |s| < |target| then s
    else if s[..|target|] == target then repl + ReplaceAll(s[|target|..], target, repl)
    else [s[0]] + ReplaceAll(s[1..], target, repl)
  }

  /** `sep` placed before every rune of `s` and once after the last. */
  function InsertEverywhere(s: string, sep: string): (r: string)
    ensures |r| >= |s| + |sep|
  {
    if s == [] then sep else sep + [s[0]] + InsertEverywhere(s[1..], sep)
  }

  /** The result of InsertEverywhere starts and ends with the separator. */
  lemma {:induction false} InsertEverywhereEnds(s: string, sep: string)
    ensures InsertEverywhere(s, sep)[..|sep|] == sep
    ensures InsertEverywhere(s, sep)[|InsertEverywhere(s, sep)| - |sep|..] == sep
  {
    if s != [] {
      var rest := InsertEverywhere(s[1..], sep);
      InsertEverywhereEnds(s[1..], sep);
      assert InsertEverywhere(s, sep) == sep + ([s[0]] + rest);
    }
  }

  /** An empty target inserts the replacement once per rune boundary: |s| + 1 copies. */
  lemma {:induction false} InsertEverywhereLength(s: string, sep: string)
    ensures |InsertEverywhere(s, sep)| == |s| + (|s| + 1) * |sep|
    ensures |ReplaceAll(s, [], sep)| == |s| + (|s| + 1) * |sep|
  {
    if s == [] {
      assert (|s| + 1) * |sep| == |sep|;
    } else {
      InsertEverywhereLength(s[1..], sep);
      assert InsertEverywhere(s, sep) == sep + [s[0]] + InsertEverywhere(s[1..], sep);
      assert (|s| + 1) * |sep| == |sep| + |s| * |sep|;
    }
  }

  /**
   * strings.Split: the pieces of `s` between non-overlapping occurrences of a
   * non-empty `sep` (always at least one piece); an empty `sep` splits `s`
   * into its runes.
   */
  function Split(s: string, sep: string): (r: seq<string>)
    ensures sep != [] ==> |r| >= 1
    decreases |s|
  {
    if sep == [] then Explode(s)
    else if |s| < |sep| then [s]
    else if s[..|sep|] == sep then [[]] + Split(s[|sep|..], sep)
    else
      var t := Split(s[1..], sep);
      [[s[0]] + t[0]] + t[1..]
  }

  function Explode(s: string): seq<string>
  {
    if s == [] then [] else [[s[0]]] + Explode(s[1..])
  }

  /** strings.Join: the pieces with `sep` between consecutive ones. */
  function Join(parts: seq<string>, sep: string): string
  {
    if parts == [] then []
    else if |parts| == 1 then parts[0]
    else parts[0] + sep + Join(parts[1..], sep)
  }

  /** Prepending a rune to the first piece prepends it to the joined string. */
  lemma JoinPrependFirst(c: char, t: seq<string>, sep: string)
    requires |t| >= 1
    ensures Join([[c] + t[0]] + t[1..], sep) == [c] + Join(t, sep)
  {
    var u := [[c] + t[0]] + t[1..];
    assert u[1..] == t[1..];
  }

  /** ReplaceAll with a non-empty target is Split followed by Join. */
  lemma {:induction false} ReplaceAllIsJoinSplit(s: string, target: string, repl: string)
    requires target != []
    ensures ReplaceAll(s, target, repl) == Join(Split(s, target), repl)
    decreases |s|
  {
    if |s| < |target| {
    } else if s[..|target|] == target {
      ReplaceAllIsJoinSplit(s[|target|..], target, repl);
      var t := Split(s[|target|..], target);
      assert ([[]] + t)[1..] == t;
    } else {
      ReplaceAllIsJoinSplit(s[1..], target, repl);
      JoinPrependFirst(s[0], Split(s[1..], target), repl);
    }
  }

  /** Replacing a non-empty target by itself changes nothing. */
  lemma {:induction false} ReplaceAllSelf(s: string, target: string)
    requires target != []
    ensures ReplaceAll(s, target, target) == s
    decreases |s|
  {
    if |s| < |target| {
    } else if s[..|target|] == target {
      ReplaceAllSelf(s[|target|..], target);
      assert s == s[..|target|] + s[|target|..];
    } else {
      ReplaceAllSelf(s[1..], target);
      assert s == [s[0]] + s[1..];
    }
  }

  /** Joining the pieces of a split with the same separator restores the string. */
  lemma {:induction false} SplitJoin(s: string, sep: string)
    requires sep != []
    ensures Join(Split(s, sep), sep) == s
  {
    ReplaceAllIsJoinSplit(s, sep, sep);
    ReplaceAllSelf(s, sep);
  }

  /** A string in which a non-empty target does not occur is left unchanged. */
  lemma {:induction false} ReplaceAllAbsent(s: string, target: string, repl: string)
    requires target != [] && !Contains(s, target)
    ensures ReplaceAll(s, target, repl) == s
    decreases |s|
  {
    if |s| < |target| {
    } else {
      assert !OccursAt(s, target, 0);
      if !Contains(s[1..], target) {
        ReplaceAllAbsent(s[1..], target, repl);
        assert s == [s[0]] + s[1..];
      } else {
        var i: nat :| i <= |s[1..]| && OccursAt(s[1..], target, i);
        assert s[i + 1..i + 1 + |target|] == s[1..][i..i + |target|];
        assert OccursAt(s, target, i + 1);
      }
    }
  }

  /** Splitting on a one-rune separator gives one piece more than the separator's occurrences. */
  lemma {:induction false} SplitOnRuneLength(s: string, c: char)
    ensures |Split(s, [c])| == multiset(s)[c] + 1
    decreases |s|
  {
    if s != [] {
      assert s == [s[0]] + s[1..];
      assert multiset(s) == multiset{s[0]} + multiset(s[1..]);
      SplitOnRuneLength(s[1..], c);
    }
  }

  /** Splitting on a one-rune separator gives exactly two pieces iff the separator occurs exactly once. */
  lemma SplitInTwo(s: string, c: char)
    ensures |Split(s, [c])| == 2 <==> multiset(s)[c] == 1
  {
    SplitOnRuneLength(s, c);
  }
  /** A split on a rune absent from the string gives the string itself. */
  lemma {:induction false} SplitAbsentRune(s: string, c: char)
    requires c !in s
    ensures Split(s, [c]) == [s]
    decreases |s|
  {
    if s != [] {
      assert s[..1] == [s[0]];
      SplitAbsentRune(s[1..], c);
      assert s == [s[0]] + s[1..];
    }
  }

  /** Splitting `k + [c] + v` on `c`, with `c` in neither half, gives the two halves. */
  lemma {:induction false} SplitAtRune(k: string, c: char, v: string)
    requires c !in k && c !in v
    ensures Split(k + [c] + v, [c]) == [k, v]
    decreases |k|
  {
    var s := k + [c] + v;
    if k == [] {
      assert s == [c] + v && s[..1] == [c] && s[1..] == v;
      SplitAbsentRune(v, c);
    } else {
      assert s[..1] == [k[0]] && s[0] == k[0];
      assert s[1..] == k[1..] + [c] + v;
      SplitAtRune(k[1..], c, v);
      assert [k[0]] + k[1..] == k;
    }
  }

  /**
   * The first piece of a split ends at the leftmost occurrence of the
   * separator: none starts inside it, and one starts right after it whenever
   * there is a second piece.
   */
  lemma {:induction false} SplitFirstIsLeftmost(s: string, sep: string)
    requires sep != []
    ensures forall i :: 0 <= i < |Split(s, sep)[0]| ==> !OccursAt(s, sep, i)
    ensures |Split(s, sep)| >= 2 ==> OccursAt(s, sep, |Split(s, sep)[0]|)
    decreases |s|
  {
    var r := Split(s, sep);
    if |s| < |sep| {
      assert r == [s];
    } else if s[..|sep|] == sep {
      assert r[0] == [];
    } else {
      SplitFirstIsLeftmost(s[1..], sep);
      var t := Split(s[1..], sep);
      assert r == [[s[0]] + t[0]] + t[1..];
      forall i | 0 <= i < |r[0]| ensures !OccursAt(s, sep, i) {
        if i > 0 && OccursAt(s, sep, i) {
          assert s[1..][i - 1..i - 1 + |sep|] == s[i..i + |sep|];
          assert OccursAt(s[1..], sep, i - 1);
        }
      }
      if |r| >= 2 {
        var j := |t[0]|;
        assert OccursAt(s[1..], sep, j);
        assert s[j + 1..j + 1 + |sep|] == s[1..][j..j + |sep|];
      }
    }
  }

  /** The first piece of a split is a prefix of the string. */
  lemma {:induction false} SplitFirstIsPrefix(s: string, sep: string)
    requires sep != []
    ensures Split(s, sep)[0] <= s
    decreases |s|
  {
    if |s| >= |sep| && s[..|sep|] != sep {
      SplitFirstIsPrefix(s[1..], sep);
    }
  }

  /**
   * No piece of a split on a non-empty separator contains the separator: the
   * split, and so ReplaceAll, cuts at every occurrence.
   */
  lemma {:induction false} SplitPiecesFree(s: string, sep: string)
    requires sep != []
    ensures forall k :: 0 <= k < |Split(s, sep)| ==> !Contains(Split(s, sep)[k], sep)
    decreases |s|
  {
    var r := Split(s, sep);
    if |s| < |sep| {
      assert r == [s];
    } else if s[..|sep|] == sep {
      SplitPiecesFree(s[|sep|..], sep);
      var t := Split(s[|sep|..], sep);
      assert r == [[]] + t;
      forall k | 0 <= k < |r| ensures !Contains(r[k], sep) {
        if k > 0 {
          assert r[k] == t[k - 1];
        }
      }
    } else {
      SplitPiecesFree(s[1..], sep);
      SplitFirstIsPrefix(s[1..], sep);
      var t := Split(s[1..], sep);
      var first := [s[0]] + t[0];
      assert r == [first] + t[1..];
      assert first <= s;
      forall i: nat | i <= |first| ensures !OccursAt(first, sep, i) {
        if i > 0 && OccursAt(first, sep, i) {
          assert t[0][i - 1..i - 1 + |sep|] == first[i..i + |sep|];
          assert OccursAt(t[0], sep, i - 1);
        }
      }
      forall k | 0 <= k < |r| ensures !Contains(r[k], sep) {
        if k > 0 {
          assert r[k] == t[k];
        }
      }
    }
  }
}
