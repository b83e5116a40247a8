/** JavaScript's `String.prototype.split` with a one-character separator,
    as the manifest checkers use it (`split("\n")` on a file, `split('@')`
    on a line or an expected entry), together with `Array.prototype.join`
    as its inverse. */
module JsString {

  /** `s.split(c)`: the pieces of `s` between occurrences of `c`, in order.
      There is always at least one piece: `"".split(c)` is `[""]`, and a
      separator at either end yields an empty piece there. No piece holds
      the separator. */
  function Split(s: string, c: char): (r: seq<string>)
    ensures |r| >= 1
    ensures forall k :: 0 <= k < |r| ==> c !in r[k]
    decreases |s|
  {
    if s == [] then [""]
    else
      var rest := Split(s[1..], c);
      if s[0] == c then [""] + rest
      else [[s[0]] + rest[0]] + rest[1..]
  }

  /** `ps.join(c)`: the pieces glued together with `c` between neighbours. */
  function Join(ps: seq<string>, c: char): (s: string)
  {
    if |ps| == 0 then ""
    else if |ps| == 1 then ps[0]
    else ps[0] + [c] + Join(ps[1..], c)
  }

  /** Splitting loses nothing: joining the pieces back gives the string. */
  lemma {:induction false} JoinSplit(s: string, c: char)
    ensures Join(Split(s, c), c) == s
    decreases |s|
  {
    if s != [] {
      var rest := Split(s[1..], c);
      JoinSplit(s[1..], c);
      if s[0] == c {
        assert Split(s, c) == [""] + rest;
        assert Join(Split(s, c), c) == "" + [c] + Join(rest, c);
        assert s == [s[0]] + s[1..];
      } else {
        var r := Split(s, c);
        assert r == [[s[0]] + rest[0]] + rest[1..];
        if |rest| == 1 {
          assert Join(r, c) == [s[0]] + rest[0];
          assert Join(rest, c) == rest[0];
        } else {
          assert r[1..] == rest[1..];
          assert Join(r, c) == [s[0]] + rest[0] + [c] + Join(rest[1..], c);
          assert Join(rest, c) == rest[0] + [c] + Join(rest[1..], c);
        }
        assert s == [s[0]] + s[1..];
      }
    }
  }

  /** A string without the separator is a single piece. */
  lemma {:induction false} SplitNoSeparator(s: string, c: char)
    requires c !in s
    ensures Split(s, c) == [s]
    decreases |s|
  {
    if s != [] {
      SplitNoSeparator(s[1..], c);
      assert s == [s[0]] + s[1..];
    }
  }

  /** A separator-free prefix followed by the separator is the first piece,
      and the rest of the string is split on its own. */
  lemma {:induction false} SplitAfterPrefix(a: string, b: string, c: char)
    requires c !in a
    ensures Split(a + [c] + b, c) == [a] + Split(b, c)
    decreases |a|
  {
    var s := a + [c] + b;
    if a == [] {
      assert s[0] == c && s[1..] == b;
    } else {
      assert s[0] == a[0] && s[1..] == a[1..] + [c] + b;
      SplitAfterPrefix(a[1..], b, c);
      assert [a[0]] + a[1..] == a;
    }
  }

  /** Splitting undoes joining, when no piece holds the separator. */
  lemma {:induction false} SplitJoin(ps: seq<string>, c: char)
    requires |ps| >= 1
    requires forall k :: 0 <= k < |ps| ==> c !in ps[k]
    ensures Split(Join(ps, c), c) == ps
    decreases |ps|
  {
    if |ps| == 1 {
      SplitNoSeparator(ps[0], c);
    } else {
      SplitJoin(ps[1..], c);
      SplitAfterPrefix(ps[0], Join(ps[1..], c), c);
      assert [ps[0]] + ps[1..] == ps;
    }
  }

  /** `s.split(c).length > 1` is exactly "s contains c". */
  lemma {:induction false} SplitLengthIff(s: string, c: char)
    ensures |Split(s, c)| > 1 <==> c in s
  {
    if c in s {
      JoinSplit(s, c);
    } else {
      SplitNoSeparator(s, c);
    }
  }

  /** A trailing separator adds one empty piece at the end. */
  lemma SplitAppendSeparator(s: string, c: char)
    ensures Split(s + [c], c) == Split(s, c) + [""]
  {
    var ps := Split(s, c) + [""];
    JoinSplit(s, c);
    JoinAppendEmpty(Split(s, c), c);
    SplitJoin(ps, c);
  }

  lemma {:induction false} JoinAppendEmpty(ps: seq<string>, c: char)
    requires |ps| >= 1
    ensures Join(ps + [""], c) == Join(ps, c) + [c]
    decreases |ps|
  {
    if |ps| == 1 {
      assert (ps + [""])[1..] == [""];
    } else {
      JoinAppendEmpty(ps[1..], c);
      assert (ps + [""])[1..] == ps[1..] + [""];
    }
  }

  /** The first piece is the text before the first separator: either the
      whole string, when it has no separator, or a prefix followed by it. */
  lemma FirstPiece(s: string, c: char)
    ensures var h := Split(s, c)[0];
      (c !in s && h == s) || (c in s && |h| < |s| && s[..|h| + 1] == h + [c])
  {
    var r := Split(s, c);
    JoinSplit(s, c);
    SplitLengthIff(s, c);
    if |r| > 1 {
      assert s == r[0] + [c] + Join(r[1..], c);
      assert s[..|r[0]| + 1] == r[0] + [c];
    }
  }
}
