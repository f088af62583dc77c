/** The parts of `java.lang.String` the patcher relies on: `indexOf`, and
    `replace(CharSequence, CharSequence)`, which replaces every occurrence of
    a literal, scanning left to right without overlap. A Java string is a
    sequence of UTF-16 code units; here it is `seq<char>`, a sequence of
    Unicode scalar values, so a character outside the Basic Multilingual
    Plane is one element here where Java counts two, and a lone surrogate
    cannot be written at all. */
module JavaStrings {

  /** `pat` occurs in `s` starting at offset `k`. */
  predicate OccursAt(s: string, pat: string, k: int) {
    0 <= k && k + |pat| <= |s| && s[k..k + |pat|] == pat
  }

  predicate Contains(s: string, pat: string) {
    exists k | 0 <= k <= |s| - |pat| :: OccursAt(s, pat, k)
  }

  /** `k` is the leftmost occurrence of `pat` in `s`. */
  predicate IsFirstOccurrence(s: string, pat: string, k: int) {
    OccursAt(s, pat, k) && forall i :: 0 <= i < k ==> !OccursAt(s, pat, i)
  }

  /** The leftmost occurrence at or after `from`, or -1 when there is none. */
  function ScanFrom(s: string, pat: string, from: nat): (r: int)
    ensures r >= 0 ==> from <= r && OccursAt(s, pat, r)
    ensures r >= 0 ==> forall i :: from <= i < r ==> !OccursAt(s, pat, i)
    ensures r < 0 ==> r == -1 && forall i :: from <= i ==> !OccursAt(s, pat, i)
    decreases |s| - from
  {
    if from + |pat| > |s| then -1
    else if s[from..from + |pat|] == pat then from
    else ScanFrom(s, pat, from + 1)
  }

  /** Where `indexOf(pat, from)` starts looking: Java clamps a start past
      the end to the length, so an empty pattern is still found there. */
  function SearchStart(s: string, from: nat): nat {
    if from <= |s| then from else |s|
  }

  /** `s.indexOf(pat, from)` for `from >= 0`: the leftmost occurrence at or
      after `SearchStart(s, from)`, or -1 when there is none. */
  function IndexOfFrom(s: string, pat: string, from: nat): (r: int)
    ensures r >= 0 ==> SearchStart(s, from) <= r && OccursAt(s, pat, r)
    ensures r >= 0 ==> forall i :: SearchStart(s, from) <= i < r ==> !OccursAt(s, pat, i)
    ensures r < 0 ==> r == -1 && forall i :: SearchStart(s, from) <= i ==> !OccursAt(s, pat, i)
  {
    if from > |s| then (if |pat| == 0 then |s| else -1)
    else ScanFrom(s, pat, from)
  }

  /** `s.indexOf(pat)`, the search from offset 0. */
  function IndexOf(s: string, pat: string): (r: int)
    ensures r >= 0 ==> IsFirstOccurrence(s, pat, r)
    ensures r < 0 ==> r == -1 && forall i :: 0 <= i ==> !OccursAt(s, pat, i)
  {
    ScanFrom(s, pat, 0)
  }

  /** `indexOf(pat)` is `indexOf(pat, 0)`: the one-argument search is the
      search from the start. */
  lemma IndexOfFromStart(s: string, pat: string)
    ensures IndexOf(s, pat) == IndexOfFrom(s, pat, 0)
  {
  }

  lemma FirstOccurrenceUnique(s: string, pat: string, k: int, m: int)
    requires IsFirstOccurrence(s, pat, k) && IsFirstOccurrence(s, pat, m)
    ensures k == m
  {
  }

  /** What `replace` does with an empty target: `repl` before every
      character and once more at the end. */
  function InsertAround(s: string, repl: string): (r: string)
    ensures |r| == |s| + (|s| + 1) * |repl|
  {
    if |s| == 0 then repl else repl + [s[0]] + InsertAround(s[1..], repl)
  }

  /** The pieces of `s` between the left-to-right, non-overlapping
      occurrences of `sep`. */
  function Split(s: string, sep: string): (parts: seq<string>)
    requires |sep| > 0
    ensures |parts| >= 1
    decreases |s|
  {
    var j := IndexOf(s, sep);
    if j < 0 then [s] else [s[..j]] + Split(s[j + |sep|..], sep)
  }

  function Join(parts: seq<string>, sep: string): string {
    if |parts| == 0 then ""
    else if |parts| == 1 then parts[0]
    else parts[0] + sep + Join(parts[1..], sep)
  }

  /** One step of `Split` at the leftmost occurrence `j`, with the text
      before and after it named. */
  lemma SplitAt(s: string, sep: string, j: int, before: string, after: string)
    requires |sep| > 0 && IndexOf(s, sep) == j >= 0
    requires before == s[..j] && after == s[j + |sep|..]
    ensures Split(s, sep) == [before] + Split(after, sep)
    ensures s == before + sep + after
  {
    assert s[j..j + |sep|] == sep;
    assert s == s[..j] + s[j..j + |sep|] + s[j + |sep|..];
  }

  lemma JoinCons(first: string, rest: seq<string>, sep: string)
    requires |rest| >= 1
    ensures Join([first] + rest, sep) == first + sep + Join(rest, sep)
  {
    assert ([first] + rest)[1..] == rest;
  }

  /** `s.replace(target, repl)`: find the leftmost occurrence, copy the text
      before it, emit `repl`, and continue after the occurrence. For a
      non-empty target the result is the text between occurrences, kept as
      it was, joined with `repl` where each occurrence stood. */
  function Replace(s: string, target: string, repl: string): (r: string)
    ensures |target| > 0 ==> r == Join(Split(s, target), repl)
    decreases |s|
  {
    if |target| == 0 then InsertAround(s, repl)
    else
      var j := IndexOf(s, target);
      if j < 0 then s
      else
        var before := s[..j];
        var after := s[j + |target|..];
        SplitAt(s, target, j, before, after);
        JoinCons(before, Split(after, target), repl);
        before + repl + Replace(after, target, repl)
  }

  /** The number of occurrences `replace` rewrites. */
  function Occurrences(s: string, pat: string): nat
    requires |pat| > 0
  {
    |Split(s, pat)| - 1
  }

  /** Splitting and re-joining with the same separator gives back `s`: the
      parts together with the occurrences make up the whole string. */
  lemma {:induction false} SplitJoin(s: string, sep: string)
    requires |sep| > 0
    ensures Join(Split(s, sep), sep) == s
    decreases |s|
  {
    var j := IndexOf(s, sep);
    if j >= 0 {
      var rest := s[j + |sep|..];
      SplitJoin(rest, sep);
      SplitAt(s, sep, j, s[..j], rest);
      JoinCons(s[..j], Split(rest, sep), sep);
    }
  }

  lemma PrefixOccurrence(s: string, pat: string, j: int, k: int)
    requires 0 <= j <= |s|
    requires OccursAt(s[..j], pat, k)
    ensures OccursAt(s, pat, k)
  {
    assert s[..j][k..k + |pat|] == s[k..k + |pat|];
  }

  /** No part contains the separator: every occurrence was cut out. */
  lemma {:induction false} SplitPartsFree(s: string, sep: string)
    requires |sep| > 0
    ensures forall i :: 0 <= i < |Split(s, sep)| ==> !Contains(Split(s, sep)[i], sep)
    decreases |s|
  {
    var j := IndexOf(s, sep);
    if j >= 0 {
      var rest := s[j + |sep|..];
      SplitPartsFree(rest, sep);
      var tail := Split(rest, sep);
      SplitAt(s, sep, j, s[..j], rest);
      if Contains(s[..j], sep) {
        var k :| 0 <= k <= j - |sep| && OccursAt(s[..j], sep, k);
        PrefixOccurrence(s, sep, j, k);
        assert false;
      }
      forall i | 0 <= i < |Split(s, sep)|
        ensures !Contains(Split(s, sep)[i], sep)
      {
        if i > 0 {
          assert Split(s, sep)[i] == tail[i - 1];
        }
      }
    }
  }

  /** Each occurrence changes the length by `|repl| - |target|`: both `s`
      and the result are the same parts, joined with `target` in one case
      and with `repl` in the other. */
  lemma {:induction false} ReplaceLength(s: string, target: string, repl: string)
    requires |target| > 0
    ensures |Replace(s, target, repl)| == |s| + Occurrences(s, target) * (|repl| - |target|)
  {
    var parts := Split(s, target);
    var n := Occurrences(s, target);
    assert |s| == SumLengths(parts) + n * |target| by {
      SplitJoin(s, target);
      JoinLength(parts, target, n);
    }
    assert |Replace(s, target, repl)| == SumLengths(parts) + n * |repl| by {
      JoinLength(parts, repl, n);
    }
    LengthArith(|s|, |Replace(s, target, repl)|, SumLengths(parts), n, |target|, |repl|);
  }

  function SumLengths(parts: seq<string>): nat {
    if |parts| == 0 then 0 else |parts[0]| + SumLengths(parts[1..])
  }

  /** Joining `n + 1` parts adds `n` separators to their total length. */
  lemma {:induction false} JoinLength(parts: seq<string>, sep: string, n: nat)
    requires |parts| == n + 1
    ensures |Join(parts, sep)| == SumLengths(parts) + n * |sep|
  {
    if n > 0 {
      JoinLength(parts[1..], sep, n - 1);
      MulSucc(n - 1, |sep|);
    }
  }

  /** The arithmetic of `ReplaceLength`, apart from any string. */
  lemma LengthArith(lenIn: int, lenOut: int, sum: int, n: int, lt: int, lr: int)
    requires lenIn == sum + n * lt
    requires lenOut == sum + n * lr
    ensures lenOut == lenIn + n * (lr - lt)
  {
  }

  lemma MulSucc(n: int, k: int)
    ensures (n + 1) * k == n * k + k
  {
  }

  /** There is nothing to replace exactly when the target does not occur,
      and then `replace` returns its input. */
  lemma {:induction false} ReplaceWithoutOccurrence(s: string, target: string, repl: string)
    requires |target| > 0
    ensures Occurrences(s, target) == 0 <==> !Contains(s, target)
    ensures !Contains(s, target) ==> Replace(s, target, repl) == s
  {
    var j := IndexOf(s, target);
    if j >= 0 {
      SplitAt(s, target, j, s[..j], s[j + |target|..]);
    }
  }

  /** `s` with every `c` turned into `d`, all other characters in place. */
  function MapChar(s: string, c: char, d: char): (r: string)
    ensures |r| == |s|
    ensures forall i :: 0 <= i < |s| ==> r[i] == (if s[i] == c then d else s[i])
  {
    if |s| == 0 then [] else [if s[0] == c then d else s[0]] + MapChar(s[1..], c, d)
  }

  /** Replacing a one-character target by a one-character replacement maps
      that character and keeps every other one in position. */
  lemma {:induction false} ReplaceSingleChar(s: string, c: char, d: char)
    ensures Replace(s, [c], [d]) == MapChar(s, c, d)
    decreases |s|
  {
    var j := IndexOf(s, [c]);
    if j >= 0 {
      ReplaceSingleChar(s[j + 1..], c, d);
      ReplaceAt(s, [c], [d], j, s[..j], s[j + 1..]);
      MapCharAtFirst(s, c, d, j);
    } else {
      MapCharWithoutOccurrence(s, c, d);
    }
  }

  lemma NoCharBefore(s: string, c: char, j: int)
    requires 0 <= j <= |s|
    requires forall i :: 0 <= i < j ==> !OccursAt(s, [c], i)
    ensures c !in s[..j]
  {
    forall i | 0 <= i < j
      ensures s[i] != c
    {
      assert !OccursAt(s, [c], i);
      assert s[i..i + 1] == [s[i]];
    }
  }

  lemma MapCharWithoutOccurrence(s: string, c: char, d: char)
    requires forall i :: 0 <= i ==> !OccursAt(s, [c], i)
    ensures MapChar(s, c, d) == s
  {
    NoCharBefore(s, c, |s|);
    assert s[..|s|] == s;
    MapCharAbsent(s, c, d);
  }

  lemma MapCharAtFirst(s: string, c: char, d: char, j: int)
    requires IsFirstOccurrence(s, [c], j)
    ensures MapChar(s, c, d) == s[..j] + [d] + MapChar(s[j + 1..], c, d)
  {
    var before := s[..j];
    var rest := s[j + 1..];
    assert s == before + [c] + rest by {
      assert s[j..j + 1] == [c];
    }
    assert MapChar(before + [c], c, d) == before + [d] by {
      NoCharBefore(s, c, j);
      MapCharAbsent(before, c, d);
      MapCharConcat(before, [c], c, d);
    }
    MapCharConcat(before + [c], rest, c, d);
  }

  lemma MapCharConcat(a: string, b: string, c: char, d: char)
    ensures MapChar(a + b, c, d) == MapChar(a, c, d) + MapChar(b, c, d)
  {
    var l := MapChar(a + b, c, d);
    var r := MapChar(a, c, d) + MapChar(b, c, d);
    assert forall i :: 0 <= i < |l| ==> l[i] == r[i];
  }

  lemma MapCharAbsent(s: string, c: char, d: char)
    requires c !in s
    ensures MapChar(s, c, d) == s
  {
  }

  /** One step of `Replace` at the leftmost occurrence `j`, with the text
      before and after it named. */
  lemma ReplaceAt(s: string, target: string, repl: string, j: int, before: string, after: string)
    requires |target| > 0 && IndexOf(s, target) == j >= 0
    requires before == s[..j] && after == s[j + |target|..]
    ensures Replace(s, target, repl) == before + repl + Replace(after, target, repl)
  {
    SplitAt(s, target, j, before, after);
    JoinCons(before, Split(after, target), repl);
  }

  lemma ExtensionSlices(q: string, t: string, j: int, k: int)
    requires 0 <= j <= k <= |q|
    ensures (q + t)[..j] == q[..j]
    ensures (q + t)[k..] == q[k..] + t
  {
  }

  lemma TrailingSlices(q: string, t: string)
    ensures (q + t)[..|q|] == q
    ensures (q + t)[|q| + |t|..] == []
  {
  }

  /** Occurrences that end inside `q` are the same in `q` and in `q + t`. */
  lemma OccursInExtension(q: string, t: string, pat: string, k: int)
    requires 0 <= k && k + |pat| <= |q|
    ensures OccursAt(q + t, pat, k) <==> OccursAt(q, pat, k)
  {
    assert (q + t)[k..k + |pat|] == q[k..k + |pat|];
  }

  /** When the first character of `target` does not recur in it, the
      leftmost occurrence in `q + target` is the leftmost one in `q`, or the
      appended copy when `q` has none. */
  lemma IndexOfTrailingTarget(q: string, target: string)
    requires |target| > 0
    requires forall i :: 1 <= i < |target| ==> target[i] != target[0]
    ensures IndexOf(q, target) >= 0 ==> IndexOf(q + target, target) == IndexOf(q, target)
    ensures IndexOf(q, target) < 0 ==> IndexOf(q + target, target) == |q|
  {
    var s := q + target;
    var jq := IndexOf(q, target);
    assert OccursAt(s, target, |q|);
    // No occurrence straddles the boundary: it would put target[0] at a
    // later offset of target.
    forall k | |q| - |target| < k < |q|
      ensures !OccursAt(s, target, k)
    {
      assert s[|q|] == target[0];
      if k >= 0 {
        assert s[k..k + |target|][|q| - k] == s[|q|];
      }
    }
    if jq >= 0 {
      OccursInExtension(q, target, target, jq);
      forall i | 0 <= i < jq
        ensures !OccursAt(s, target, i)
      {
        OccursInExtension(q, target, target, i);
      }
      assert IsFirstOccurrence(s, target, jq);
      FirstOccurrenceUnique(s, target, jq, IndexOf(s, target));
    } else {
      forall i | 0 <= i < |q|
        ensures !OccursAt(s, target, i)
      {
        if i + |target| <= |q| {
          OccursInExtension(q, target, target, i);
        }
      }
      assert IsFirstOccurrence(s, target, |q|);
      FirstOccurrenceUnique(s, target, |q|, IndexOf(s, target));
    }
  }

  /** A target whose first character does not recur in it cannot overlap a
      copy of itself, so an occurrence at the very end of the input is always
      the one that gets replaced. */
  lemma {:induction false} ReplaceTrailingTarget(q: string, target: string, repl: string)
    requires |target| > 0
    requires forall i :: 1 <= i < |target| ==> target[i] != target[0]
    ensures Replace(q + target, target, repl) == Replace(q, target, repl) + repl
    decreases |q|
  {
    var jq := IndexOf(q, target);
    if jq >= 0 {
      var rest := q[jq + |target|..];
      ReplaceTrailingTarget(rest, target, repl);
      TrailingTargetAfterFirst(q, target, repl, jq, rest);
    } else {
      TrailingTargetOnly(q, target, repl);
    }
  }

  /** The step of `ReplaceTrailingTarget` when `q` holds the target: both
      sides replace the same leftmost occurrence first. */
  lemma TrailingTargetAfterFirst(q: string, target: string, repl: string, jq: int, rest: string)
    requires |target| > 0
    requires forall i :: 1 <= i < |target| ==> target[i] != target[0]
    requires IndexOf(q, target) == jq >= 0 && rest == q[jq + |target|..]
    requires Replace(rest + target, target, repl) == Replace(rest, target, repl) + repl
    ensures Replace(q + target, target, repl) == Replace(q, target, repl) + repl
  {
    var before := q[..jq];
    ReplaceFirstInExtension(q, target, repl, jq, before, rest);
    ReplaceAt(q, target, repl, jq, before, rest);
    AppendAfter(before + repl, Replace(rest, target, repl), repl);
  }

  /** When `q` holds the target, `replace` on `q + target` starts with the
      same leftmost occurrence as on `q`. */
  lemma ReplaceFirstInExtension(q: string, target: string, repl: string, jq: int, before: string, rest: string)
    requires |target| > 0
    requires forall i :: 1 <= i < |target| ==> target[i] != target[0]
    requires IndexOf(q, target) == jq >= 0 && before == q[..jq] && rest == q[jq + |target|..]
    ensures Replace(q + target, target, repl) == before + repl + Replace(rest + target, target, repl)
  {
    IndexOfTrailingTarget(q, target);
    ExtensionSlices(q, target, jq, jq + |target|);
    ReplaceAt(q + target, target, repl, jq, before, rest + target);
  }

  /** The step of `ReplaceTrailingTarget` when `q` does not hold the
      target: the appended copy is the only occurrence. */
  lemma TrailingTargetOnly(q: string, target: string, repl: string)
    requires |target| > 0
    requires forall i :: 1 <= i < |target| ==> target[i] != target[0]
    requires IndexOf(q, target) < 0
    ensures Replace(q + target, target, repl) == Replace(q, target, repl) + repl
  {
    var s := q + target;
    assert Replace(s, target, repl) == q + repl + Replace([], target, repl) by {
      IndexOfTrailingTarget(q, target);
      TrailingSlices(q, target);
      ReplaceAt(s, target, repl, |q|, q, []);
    }
    assert Replace(q, target, repl) == q by {
      ReplaceWithoutOccurrence(q, target, repl);
    }
  }

  lemma AppendAfter(a: string, b: string, c: string)
    ensures a + (b + c) == (a + b) + c
  {
  }
}
