/**
 * The two string built-ins the crawler's output step relies on, with Python's semantics:
 * `str.replace` (every non-overlapping occurrence, scanning left to right) and
 * `str.join` (parts separated by the separator, nothing before the first or after the last).
 */
module Text {

  /** Python's `s.replace(target, replacement)` with no count argument. */
  function ReplaceAll(s: string, target: string, replacement: string): (r: string)
    ensures target == [] ==> |r| == |s| + (|s| + 1) * |replacement|
    decreases |s|
  {
    if target == [] then InsertEverywhere(s, replacement)
    else if |s| < |target| then s
    else if s[..|target|] == target then replacement + ReplaceAll(s[|target|..], target, replacement)
    else [s[0]] + ReplaceAll(s[1..], target, replacement)
  }

  /** An empty target matches before every character and at the end: `"ab".replace("", "-") == "-a-b-"`. */
  function InsertEverywhere(s: string, replacement: string): (r: string)
    ensures |r| == |s| + (|s| + 1) * |replacement|
  {
    if s == [] then replacement
    else replacement + [s[0]] + InsertEverywhere(s[1..], replacement)
  }

  /** `target in s`, Python's substring test. */
  predicate Occurs(s: string, target: string)
    ensures Occurs(s, target) ==> |target| <= |s|
    ensures target == [] ==> Occurs(s, target)
    decreases |s|
  {
    if target == [] then true
    else |target| <= |s| && (s[..|target|] == target || Occurs(s[1..], target))
  }

  /** Replacing one character by another changes exactly the positions that held it. */
  lemma {:induction false} ReplaceCharPointwise(s: string, c: char, d: char)
    ensures |ReplaceAll(s, [c], [d])| == |s|
    ensures forall i :: 0 <= i < |s| ==> ReplaceAll(s, [c], [d])[i] == (if s[i] == c then d else s[i])
  {
    if s != [] {
      ReplaceCharPointwise(s[1..], c, d);
      var rest := ReplaceAll(s[1..], [c], [d]);
      if s[0] == c {
        assert s[..1] == [c];
        assert ReplaceAll(s, [c], [d]) == [d] + rest;
      } else {
        assert s[..1] != [c] by { assert s[..1][0] == s[0]; }
        assert ReplaceAll(s, [c], [d]) == [s[0]] + rest;
      }
    }
  }

  /** After replacing `c` by a different character, `c` is gone. */
  lemma ReplaceCharRemoves(s: string, c: char, d: char)
    requires c != d
    ensures c !in ReplaceAll(s, [c], [d])
    ensures forall x :: x in ReplaceAll(s, [c], [d]) ==> x in s || x == d
  {
    ReplaceCharPointwise(s, c, d);
    var r := ReplaceAll(s, [c], [d]);
    forall x | x in r ensures x != c && (x in s || x == d) {
      var i :| 0 <= i < |r| && r[i] == x;
      assert s[i] in s;
    }
  }

  /** A target with a character that `s` lacks cannot occur in `s`. */
  lemma {:induction false} AbsentCharNoOccurrence(s: string, target: string, k: nat)
    requires k < |target| && target[k] !in s
    ensures !Occurs(s, target)
    decreases |s|
  {
    if |target| <= |s| {
      assert s[..|target|] != target by { assert s[..|target|][k] == s[k]; }
      assert forall x :: x in s[1..] ==> x in s;
      AbsentCharNoOccurrence(s[1..], target, k);
    }
  }

  /** A target found at any position occurs. */
  lemma {:induction false} OccursAt(s: string, target: string, i: nat)
    requires i + |target| <= |s| && s[i..i + |target|] == target
    ensures Occurs(s, target)
    decreases i
  {
    if target != [] && i > 0 {
      assert s[1..][i - 1..i - 1 + |target|] == s[i..i + |target|];
      OccursAt(s[1..], target, i - 1);
    }
  }

  /** Replacing a target that does not occur leaves the string unchanged. */
  lemma {:induction false} ReplaceNoOccurrence(s: string, target: string, replacement: string)
    requires target != [] && !Occurs(s, target)
    ensures ReplaceAll(s, target, replacement) == s
    decreases |s|
  {
    if |target| <= |s| {
      ReplaceNoOccurrence(s[1..], target, replacement);
      assert [s[0]] + s[1..] == s;
    }
  }

  /** Replacing a target that has a character `s` lacks leaves `s` unchanged. */
  lemma {:induction false} ReplaceAbsent(s: string, target: string, replacement: string, k: nat)
    requires k < |target| && target[k] !in s
    ensures ReplaceAll(s, target, replacement) == s
    decreases |s|
  {
    if |target| <= |s| {
      assert s[..|target|] != target by { assert s[..|target|][k] == s[k]; }
      assert forall x :: x in s[1..] ==> x in s;
      ReplaceAbsent(s[1..], target, replacement, k);
      assert [s[0]] + s[1..] == s;
    }
  }

  /** A leading occurrence of the target is replaced and the scan resumes right after it. */
  lemma ReplaceLeading(target: string, t: string, replacement: string)
    requires target != []
    ensures ReplaceAll(target + t, target, replacement) == replacement + ReplaceAll(t, target, replacement)
  {
    var s := target + t;
    assert s[..|target|] == target;
    assert s[|target|..] == t;
  }

  /** Python's `sep.join(parts)`. */
  function Join(parts: seq<string>, sep: string): (r: string)
    ensures parts == [] ==> r == ""
    ensures |parts| == 1 ==> r == parts[0]
    decreases |parts|
  {
    if |parts| == 0 then ""
    else if |parts| == 1 then parts[0]
    else parts[0] + sep + Join(parts[1..], sep)
  }

  /** Sum of the lengths of the parts. */
  function TotalLength(parts: seq<string>): nat
  {
    if parts == [] then 0 else |parts[0]| + TotalLength(parts[1..])
  }

  /** Where part `i` starts in `Join(parts, sep)`: all earlier parts, each followed by one separator. */
  function PartOffset(parts: seq<string>, sep: string, i: nat): nat
    requires i <= |parts|
  {
    TotalLength(parts[..i]) + i * |sep|
  }

  /** Joining n >= 1 parts adds exactly n - 1 separators; joining none gives the empty string. */
  lemma {:induction false} JoinLength(parts: seq<string>, sep: string)
    ensures |Join(parts, sep)| == if parts == [] then 0 else TotalLength(parts) + (|parts| - 1) * |sep|
    decreases |parts|
  {
    if |parts| == 1 {
      assert TotalLength(parts) == |parts[0]| + TotalLength([]);
    } else if |parts| > 1 {
      JoinLength(parts[1..], sep);
      assert (|parts| - 1) * |sep| == |sep| + (|parts| - 2) * |sep|;
    }
  }

  /**
   * Part `i` sits at PartOffset(parts, sep, i) in the joined string, and every part but the first
   * is directly preceded by one separator. With JoinLength this determines the joined string.
   */
  lemma {:induction false} JoinPart(parts: seq<string>, sep: string, i: nat)
    requires i < |parts|
    ensures PartOffset(parts, sep, i) + |parts[i]| <= |Join(parts, sep)|
    ensures Join(parts, sep)[PartOffset(parts, sep, i)..PartOffset(parts, sep, i) + |parts[i]|] == parts[i]
    ensures 0 < i ==> |sep| <= PartOffset(parts, sep, i) &&
                      Join(parts, sep)[PartOffset(parts, sep, i) - |sep|..PartOffset(parts, sep, i)] == sep
    decreases |parts|
  {
    if i == 0 {
      assert parts[..0] == [];
      if |parts| > 1 {
        assert Join(parts, sep) == parts[0] + (sep + Join(parts[1..], sep));
      }
    } else {
      JoinPart(parts[1..], sep, i - 1);
      JoinPartStep(parts, sep, i);
    }
  }

  /** One step of JoinPart: what holds for part i - 1 of the tail holds for part i of the whole. */
  lemma JoinPartStep(parts: seq<string>, sep: string, i: nat)
    requires 0 < i < |parts|
    requires var o' := PartOffset(parts[1..], sep, i - 1);
             o' + |parts[i]| <= |Join(parts[1..], sep)| &&
             Join(parts[1..], sep)[o'..o' + |parts[i]|] == parts[i] &&
             (1 < i ==> |sep| <= o' && Join(parts[1..], sep)[o' - |sep|..o'] == sep)
    ensures PartOffset(parts, sep, i) + |parts[i]| <= |Join(parts, sep)|
    ensures Join(parts, sep)[PartOffset(parts, sep, i)..PartOffset(parts, sep, i) + |parts[i]|] == parts[i]
    ensures |sep| <= PartOffset(parts, sep, i) &&
            Join(parts, sep)[PartOffset(parts, sep, i) - |sep|..PartOffset(parts, sep, i)] == sep
  {
    PartOffsetStep(parts, sep, i);
    var head, rest := parts[0] + sep, Join(parts[1..], sep);
    var o' := PartOffset(parts[1..], sep, i - 1);
    assert Join(parts, sep) == head + rest;
    SliceOfAppend(head, rest, |head| + o', |head| + o' + |parts[i]|);
    if i == 1 {
      assert o' == 0 by { assert parts[1..][..0] == []; }
      assert (head + rest)[|parts[0]|..|head|] == sep;
    } else {
      SliceOfAppend(head, rest, |head| + o' - |sep|, |head| + o');
    }
  }

  /** A slice that lies in the second half of a concatenation is a slice of that half. */
  lemma SliceOfAppend(a: string, b: string, lo: int, hi: int)
    requires |a| <= lo <= hi <= |a| + |b|
    ensures (a + b)[lo..hi] == b[lo - |a|..hi - |a|]
  {
  }

  /** Dropping the first part moves every later offset back by that part and one separator. */
  lemma PartOffsetStep(parts: seq<string>, sep: string, i: nat)
    requires 0 < i <= |parts|
    ensures PartOffset(parts, sep, i) == |parts[0]| + |sep| + PartOffset(parts[1..], sep, i - 1)
  {
    assert parts[..i] == [parts[0]] + parts[1..][..i - 1];
    assert TotalLength(parts[..i]) == |parts[0]| + TotalLength(parts[1..][..i - 1]);
    assert i * |sep| == |sep| + (i - 1) * |sep|;
  }
}
