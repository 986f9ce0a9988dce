/** Single-character delimited text, as Python's `sep.join(fields)` and
    `s.split(sep)` treat it. The embedding writer joins the fields of a row
    with a tab; the residue-pair key joins two residue names with a dash. */
module Delimited {

  /** Index of the first occurrence of `c` in `s`. */
  function FirstIndex(s: string, c: char): (i: nat)
    requires c in s
    ensures i < |s| && s[i] == c
    ensures c !in s[..i]
  {
    if s[0] == c then 0
    else
      var i := 1 + FirstIndex(s[1..], c);
      assert s[..i] == [s[0]] + s[1..][..i - 1];
      i
  }

  /** `sep.join(fields)`: the fields with one `sep` between neighbours and
      nothing before the first or after the last; no fields give "". */
  function Join(fields: seq<string>, sep: char): string {
    if |fields| == 0 then ""
    else if |fields| == 1 then fields[0]
    else fields[0] + [sep] + Join(fields[1..], sep)
  }

  /** `s.split(sep)`: the maximal `sep`-free pieces of `s`, in order; a string
      without `sep` (the empty one included) is one field. */
  function Split(s: string, sep: char): (fields: seq<string>)
    ensures |fields| >= 1
    ensures forall i :: 0 <= i < |fields| ==> sep !in fields[i]
    decreases |s|
  {
    if sep in s then
      var i := FirstIndex(s, sep);
      [s[..i]] + Split(s[i + 1..], sep)
    else
      [s]
  }

  /** The first `sep` of `a + [sep] + b` is the one right after `a`, when `a`
      holds none. */
  lemma FirstIndexAfter(a: string, sep: char, b: string)
    requires sep !in a
    ensures sep in a + [sep] + b
    ensures FirstIndex(a + [sep] + b, sep) == |a|
  {
    var s := a + [sep] + b;
    assert s[|a|] == sep;
  }

  /** Splitting at the first separator: a separator-free head, then the rest. */
  lemma SplitAfter(a: string, sep: char, rest: string)
    requires sep !in a
    ensures Split(a + [sep] + rest, sep) == [a] + Split(rest, sep)
  {
    var s := a + [sep] + rest;
    FirstIndexAfter(a, sep, rest);
    assert s[..|a|] == a;
    assert s[|a| + 1..] == rest;
  }

  /** Splitting a join gives back the fields, provided there is at least one
      and none of them holds the separator. */
  lemma {:induction false} SplitJoin(fields: seq<string>, sep: char)
    requires |fields| >= 1
    requires forall i :: 0 <= i < |fields| ==> sep !in fields[i]
    ensures Split(Join(fields, sep), sep) == fields
  {
    if |fields| == 1 {
      assert Join(fields, sep) == fields[0];
    } else {
      var tail := fields[1..];
      assert forall i :: 0 <= i < |tail| ==> sep !in tail[i] by {
        forall i | 0 <= i < |tail| ensures sep !in tail[i] {
          assert tail[i] == fields[i + 1];
        }
      }
      SplitJoin(tail, sep);
      SplitAfter(fields[0], sep, Join(tail, sep));
      assert fields == [fields[0]] + tail;
    }
  }

  /** Joining a split gives back the string: the two are inverse. */
  lemma {:induction false} JoinSplit(s: string, sep: char)
    ensures Join(Split(s, sep), sep) == s
    decreases |s|
  {
    if sep in s {
      var i := FirstIndex(s, sep);
      var rest := Split(s[i + 1..], sep);
      JoinSplit(s[i + 1..], sep);
      assert Split(s, sep) == [s[..i]] + rest;
      assert ([s[..i]] + rest)[1..] == rest;
      assert s == s[..i] + [sep] + s[i + 1..];
    }
  }

  /** A join of one-character fields has one separator between neighbours:
      `2 * n - 1` characters for `n >= 1` fields. */
  lemma {:induction false} JoinLength(fields: seq<string>, sep: char)
    requires forall i :: 0 <= i < |fields| ==> |fields[i]| == 1
    ensures |Join(fields, sep)| == if |fields| == 0 then 0 else 2 * |fields| - 1
  {
    if |fields| > 1 {
      JoinLength(fields[1..], sep);
    }
  }

  /** A character that is no separator and occurs in no field does not occur
      in the join. */
  lemma {:induction false} JoinAddsOnlySeparators(fields: seq<string>, sep: char, c: char)
    requires c != sep
    requires forall i :: 0 <= i < |fields| ==> c !in fields[i]
    ensures c !in Join(fields, sep)
  {
    if |fields| > 1 {
      assert forall i :: 0 <= i < |fields[1..]| ==> fields[1..][i] == fields[i + 1];
      JoinAddsOnlySeparators(fields[1..], sep, c);
    }
  }
}
