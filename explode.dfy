/**
 * PHP's `explode($separator, $string)` for a one-character separator and no
 * limit: the string is cut at EVERY occurrence of the separator, and the
 * empty string yields one empty segment.  `Join` is PHP's `implode`, the
 * inverse partner of `Split`.
 */
module Explode {

  /** `explode(sep, s)`: the non-empty list of separator-free segments of `s`. */
  function Split(s: string, sep: char): (r: seq<string>)
    ensures |r| >= 1
    ensures forall i :: 0 <= i < |r| ==> sep !in r[i]
    ensures s == [] ==> r == [[]]
  {
    if s == [] then [[]]
    else if s[0] == sep then [[]] + Split(s[1..], sep)
    else PrependToFirst(s[0], Split(s[1..], sep))
  }

  /** Puts `c` in front of the first segment. */
  function PrependToFirst(c: char, segs: seq<string>): (r: seq<string>)
    requires |segs| >= 1
    ensures |r| == |segs| && r[1..] == segs[1..]
  {
    [[c] + segs[0]] + segs[1..]
  }

  /** `implode(sep, segs)`: the segments glued back together with `sep` between them. */
  function Join(segs: seq<string>, sep: char): string
    requires |segs| >= 1
  {
    if |segs| == 1 then segs[0] else segs[0] + [sep] + Join(segs[1..], sep)
  }

  /** A string without the separator is a single segment. */
  lemma {:induction false} SplitWithoutSeparator(s: string, sep: char)
    requires sep !in s
    ensures Split(s, sep) == [s]
  {
    if s != [] {
      assert sep !in s[1..] by {
        forall k | 0 <= k < |s[1..]| ensures s[1..][k] != sep { assert s[1..][k] == s[k + 1]; }
      }
      SplitWithoutSeparator(s[1..], sep);
      assert [s[0]] + s[1..] == s;
    }
  }

  /** Cutting at the first separator: the first segment is everything before it,
      and the remaining segments are those of everything after it. */
  lemma {:induction false} SplitAtFirstSeparator(a: string, sep: char, b: string)
    requires sep !in a
    ensures Split(a + [sep] + b, sep) == [a] + Split(b, sep)
  {
    var s := a + [sep] + b;
    if a == [] {
      assert s[0] == sep && s[1..] == b;
    } else {
      assert s[0] == a[0] && s[0] != sep;
      assert s[1..] == a[1..] + [sep] + b;
      assert sep !in a[1..] by {
        forall k | 0 <= k < |a[1..]| ensures a[1..][k] != sep { assert a[1..][k] == a[k + 1]; }
      }
      SplitAtFirstSeparator(a[1..], sep, b);
      assert [a[0]] + a[1..] == a;
    }
  }

  /** Gluing `x` onto the front of the first segment glues it onto the whole result. */
  lemma JoinPrependToHead(x: string, segs: seq<string>, sep: char)
    requires |segs| >= 1
    ensures Join([x + segs[0]] + segs[1..], sep) == x + Join(segs, sep)
  {
    var t := [x + segs[0]] + segs[1..];
    assert t[1..] == segs[1..];
  }

  /** `implode(sep, explode(sep, s)) == s`. */
  lemma {:induction false} JoinSplit(s: string, sep: char)
    ensures Join(Split(s, sep), sep) == s
  {
    if s != [] {
      var rest := Split(s[1..], sep);
      JoinSplit(s[1..], sep);
      if s[0] == sep {
        var r := [[]] + rest;
        assert r[1..] == rest;
        assert |r| > 1;
        assert Join(r, sep) == [] + [sep] + Join(rest, sep);
      } else {
        assert Split(s, sep) == [[s[0]] + rest[0]] + rest[1..];
        JoinPrependToHead([s[0]], rest, sep);
      }
      assert [s[0]] + s[1..] == s;
    }
  }

  /** `explode(sep, implode(sep, segs)) == segs` whenever no segment holds `sep`. */
  lemma {:induction false} SplitJoin(segs: seq<string>, sep: char)
    requires |segs| >= 1
    requires forall i :: 0 <= i < |segs| ==> sep !in segs[i]
    ensures Split(Join(segs, sep), sep) == segs
  {
    if |segs| == 1 {
      SplitWithoutSeparator(segs[0], sep);
    } else {
      SplitAtFirstSeparator(segs[0], sep, Join(segs[1..], sep));
      SplitJoin(segs[1..], sep);
      assert [segs[0]] + segs[1..] == segs;
    }
  }

  /** There is a second segment exactly when the separator occurs. */
  lemma SplitHasSecondSegment(s: string, sep: char)
    ensures |Split(s, sep)| >= 2 <==> sep in s
  {
    var segs := Split(s, sep);
    if sep !in s {
      SplitWithoutSeparator(s, sep);
    } else {
      JoinSplit(s, sep);
    }
  }
}
