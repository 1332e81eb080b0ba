/** The string operations of Python that the model relies on: the substring
    test `t in s`, `sep.join(parts)` and `s.split(sep)` for a one-character
    separator. */
module Text {

  /** `t` occurs in `s` starting at index `i`. */
  predicate OccursAt(s: string, t: string, i: nat) {
    i + |t| <= |s| && s[i..i + |t|] == t
  }

  /** Python's `t in s` on strings. */
  predicate Contains(s: string, t: string) {
    exists i: nat | i <= |s| :: OccursAt(s, t, i)
  }

  /** `name` with `suffix` appended unless `suffix` already occurs somewhere in it. */
  function WithSuffix(name: string, suffix: string): (r: string)
    ensures Contains(r, suffix)
    ensures r == name <==> Contains(name, suffix)
    ensures !Contains(name, suffix) ==> r == name + suffix
  {
    if Contains(name, suffix) then
      name
    else
      assert !OccursAt(name, suffix, 0);
      assert OccursAt(name + suffix, suffix, |name|);
      name + suffix
  }

  /** Python's `sep.join(parts)`. */
  function Join(parts: seq<string>, sep: string): string
    decreases |parts|
  {
    if |parts| == 0 then ""
    else if |parts| == 1 then parts[0]
    else parts[0] + sep + Join(parts[1..], sep)
  }

  /** Python's `s.split(c)` for a one-character separator `c`: the pieces
      between consecutive occurrences of `c`, empty pieces included. */
  function Split(s: string, c: char): (pieces: seq<string>)
    ensures |pieces| >= 1
    ensures forall k :: 0 <= k < |pieces| ==> c !in pieces[k]
    decreases |s|
  {
    if |s| == 0 then [""]
    else
      var rest := Split(s[1..], c);
      if s[0] == c then [""] + rest
      else [[s[0]] + rest[0]] + rest[1..]
  }

  /** Number of occurrences of `c` in `s`. */
  function Occurrences(s: string, c: char): nat
    decreases |s|
  {
    if |s| == 0 then 0
    else (if s[0] == c then 1 else 0) + Occurrences(s[1..], c)
  }

  /** Python's `s.replace(c, "")` for a one-character `c`: `s` with every
      occurrence of `c` dropped and the other characters kept in order. */
  function Remove(s: string, c: char): (r: string)
    ensures c !in r
    ensures |r| == |s| - Occurrences(s, c)
    ensures forall x :: x != c ==> (x in r <==> x in s)
    ensures c !in s ==> r == s
    decreases |s|
  {
    if |s| == 0 then ""
    else if s[0] == c then Remove(s[1..], c)
    else [s[0]] + Remove(s[1..], c)
  }

  /** Splitting yields one more piece than there are separators. */
  lemma {:induction false} SplitCount(s: string, c: char)
    ensures |Split(s, c)| == Occurrences(s, c) + 1
    decreases |s|
  {
    if |s| > 0 {
      SplitCount(s[1..], c);
    }
  }

  /** Joining the pieces of a split with the separator gives back the string. */
  lemma {:induction false} JoinSplit(s: string, c: char)
    ensures Join(Split(s, c), [c]) == s
    decreases |s|
  {
    if |s| > 0 {
      var rest := Split(s[1..], c);
      JoinSplit(s[1..], c);
      if s[0] == c {
        assert Split(s, c) == [""] + rest;
        assert Join(Split(s, c), [c]) == "" + [c] + Join(rest, [c]);
      } else {
        JoinHead(rest, [s[0]], [c]);
      }
    }
  }

  /** Prepending to the first piece prepends to the joined string. */
  lemma JoinHead(parts: seq<string>, p: string, sep: string)
    requires |parts| >= 1
    ensures Join([p + parts[0]] + parts[1..], sep) == p + Join(parts, sep)
  {
    var q := [p + parts[0]] + parts[1..];
    assert q[1..] == parts[1..];
  }

  /** A string free of `c` splits into itself alone. */
  lemma {:induction false} SplitWithout(p: string, c: char)
    requires c !in p
    ensures Split(p, c) == [p]
    decreases |p|
  {
    if |p| > 0 {
      assert c !in p[1..];
      SplitWithout(p[1..], c);
      assert [p[0]] + p[1..] == p;
    }
  }

  /** A piece free of `c` followed by `c` becomes the first piece of the split. */
  lemma {:induction false} SplitAfterPiece(p: string, c: char, t: string)
    requires c !in p
    ensures Split(p + [c] + t, c) == [p] + Split(t, c)
    decreases |p|
  {
    if |p| == 0 {
      assert p + [c] + t == [c] + t;
      assert ([c] + t)[1..] == t;
    } else {
      var s := p + [c] + t;
      assert s[0] == p[0] && s[1..] == p[1..] + [c] + t;
      assert c !in p[1..];
      SplitAfterPiece(p[1..], c, t);
      assert [p[0]] + p[1..] == p;
    }
  }

  /** Splitting undoes joining when no part contains the separator. */
  lemma {:induction false} SplitJoin(parts: seq<string>, c: char)
    requires |parts| >= 1
    requires forall k :: 0 <= k < |parts| ==> c !in parts[k]
    ensures Split(Join(parts, [c]), c) == parts
    decreases |parts|
  {
    if |parts| == 1 {
      SplitWithout(parts[0], c);
    } else {
      SplitJoin(parts[1..], c);
      SplitAfterPiece(parts[0], c, Join(parts[1..], [c]));
      assert [parts[0]] + parts[1..] == parts;
    }
  }

  /** Occurrences add up over a concatenation. */
  lemma {:induction false} OccurrencesAppend(s: string, t: string, c: char)
    ensures Occurrences(s + t, c) == Occurrences(s, c) + Occurrences(t, c)
    decreases |s|
  {
    if |s| == 0 {
      assert s + t == t;
    } else {
      assert (s + t)[0] == s[0] && (s + t)[1..] == s[1..] + t;
      OccurrencesAppend(s[1..], t, c);
    }
  }

  /** Total occurrences of `c` over all parts. */
  function OccurrencesIn(parts: seq<string>, c: char): nat
    decreases |parts|
  {
    if |parts| == 0 then 0 else Occurrences(parts[0], c) + OccurrencesIn(parts[1..], c)
  }

  /** Joining with `c` adds one occurrence of `c` between each two parts. */
  lemma {:induction false} JoinOccurrences(parts: seq<string>, c: char)
    requires |parts| >= 1
    ensures Occurrences(Join(parts, [c]), c) == OccurrencesIn(parts, c) + |parts| - 1
    decreases |parts|
  {
    if |parts| == 1 {
      assert OccurrencesIn(parts[1..], c) == 0;
    } else {
      JoinOccurrences(parts[1..], c);
      OccurrencesAppend(parts[0] + [c], Join(parts[1..], [c]), c);
      OccurrencesAppend(parts[0], [c], c);
      assert Occurrences([c], c) == 1 by {
        assert [c][1..] == [];
      }
    }
  }
}
