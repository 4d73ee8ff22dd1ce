/**
 * Splitting a path string on '/' and joining segments back with '/', exactly as
 * JavaScript's `String.prototype.split("/")` and `Array.prototype.join("/")` do.
 * Every path operation of the model is built on these two.
 */
module Segments {

  const Sep: char := '/'

  /** A segment as `split` produces it: it never contains the separator. */
  predicate NoSep(s: string) {
    Sep !in s
  }

  predicate AllNoSep(segs: seq<string>) {
    forall i :: 0 <= i < |segs| ==> NoSep(segs[i])
  }

  /** `s.split("/")`: always at least one segment. */
  function Split(s: string): (r: seq<string>)
    ensures |r| >= 1
  {
    if |s| == 0 then [""]
    else if s[0] == Sep then [""] + Split(s[1..])
    else
      var t := Split(s[1..]);
      [[s[0]] + t[0]] + t[1..]
  }

  /** `segs.join("/")`; the empty list joins to the empty string. */
  function Join(segs: seq<string>): string
  {
    if |segs| == 0 then ""
    else if |segs| == 1 then segs[0]
    else segs[0] + [Sep] + Join(segs[1..])
  }

  function Last<T>(xs: seq<T>): T
    requires |xs| > 0
  {
    xs[|xs| - 1]
  }

  /** A joined path ends with its last segment. */
  lemma {:induction false} JoinEndsWithLast(segs: seq<string>)
    requires |segs| >= 1
    ensures |Join(segs)| >= |Last(segs)|
    ensures Join(segs)[|Join(segs)| - |Last(segs)|..] == Last(segs)
  {
    if |segs| > 1 {
      JoinEndsWithLast(segs[1..]);
      assert Last(segs[1..]) == Last(segs);
    }
  }

  /** No segment that `split` produces holds a '/'. */
  lemma {:induction false} SplitSegmentsNoSep(s: string)
    ensures AllNoSep(Split(s))
  {
    if |s| > 0 {
      SplitSegmentsNoSep(s[1..]);
      if s[0] != Sep {
        var t := Split(s[1..]);
        assert NoSep([s[0]] + t[0]) by {
          assert NoSep(t[0]);
        }
        var r := [[s[0]] + t[0]] + t[1..];
        forall i | 0 <= i < |r| ensures NoSep(r[i]) {
          if i > 0 {
            assert r[i] == t[i];
          }
        }
      }
    }
  }

  /** Joining what was split gives back the original string. */
  lemma {:induction false} JoinSplit(s: string)
    ensures Join(Split(s)) == s
  {
    if |s| > 0 {
      JoinSplit(s[1..]);
      var t := Split(s[1..]);
      assert Join(t) == s[1..];
      assert s == [s[0]] + s[1..];
      if s[0] == Sep {
        var r := [""] + t;
        assert Split(s) == r;
        if |t| == 1 {
          assert Join(r) == "" + [Sep] + t[0];
        } else {
          assert r[1..] == t;
          assert Join(r) == "" + [Sep] + Join(t);
        }
      } else {
        var r := [[s[0]] + t[0]] + t[1..];
        assert Split(s) == r;
        if |t| == 1 {
          assert Join(r) == [s[0]] + t[0];
          assert t[0] == Join(t);
        } else {
          assert r[0] == [s[0]] + t[0] && r[1..] == t[1..];
          assert Join(r) == ([s[0]] + t[0]) + [Sep] + Join(t[1..]);
          assert Join(t) == t[0] + [Sep] + Join(t[1..]);
        }
      }
    }
  }

  /** Splitting at a separator splits the two sides independently. */
  lemma {:induction false} SplitAroundSep(a: string, b: string)
    ensures Split(a + [Sep] + b) == Split(a) + Split(b)
  {
    var s := a + [Sep] + b;
    if |a| == 0 {
      assert s[0] == Sep && s[1..] == b;
    } else {
      assert s[0] == a[0] && s[1..] == a[1..] + [Sep] + b;
      SplitAroundSep(a[1..], b);
      if a[0] != Sep {
        var t := Split(a[1..]);
        assert t[1..] + Split(b) == (t + Split(b))[1..];
      }
    }
  }

  /** A string without separators is a single segment. */
  lemma {:induction false} SplitNoSep(x: string)
    requires NoSep(x)
    ensures Split(x) == [x]
  {
    if |x| > 0 {
      assert NoSep(x[1..]) by {
        forall i | 0 <= i < |x[1..]| ensures x[1..][i] != Sep {
          assert x[1..][i] == x[i + 1];
        }
      }
      SplitNoSep(x[1..]);
      assert [x[0]] + x[1..] == x;
    }
  }

  /** Splitting what was joined gives back the segments, when none holds a '/'. */
  lemma {:induction false} SplitJoin(segs: seq<string>)
    requires |segs| >= 1
    requires AllNoSep(segs)
    ensures Split(Join(segs)) == segs
  {
    if |segs| == 1 {
      SplitNoSep(segs[0]);
    } else {
      assert AllNoSep(segs[1..]) by {
        forall i | 0 <= i < |segs[1..]| ensures NoSep(segs[1..][i]) {
          assert segs[1..][i] == segs[i + 1];
        }
      }
      SplitJoin(segs[1..]);
      SplitAroundSep(segs[0], Join(segs[1..]));
      SplitNoSep(segs[0]);
    }
  }

  /** Joining concatenated segment lists puts one separator between the parts. */
  lemma {:induction false} JoinAppend(a: seq<string>, b: seq<string>)
    requires |a| >= 1 && |b| >= 1
    ensures Join(a + b) == Join(a) + [Sep] + Join(b)
  {
    if |a| == 1 {
      assert (a + b)[1..] == b;
    } else {
      assert (a + b)[1..] == a[1..] + b;
      JoinAppend(a[1..], b);
    }
  }

  /** A string ends in '/' exactly when its last segment is empty. */
  lemma {:induction false} TrailingSepIffEmptyLast(s: string)
    requires |s| >= 1
    ensures s[|s| - 1] == Sep <==> Last(Split(s)) == ""
  {
    if |s| == 1 {
      if s[0] == Sep {
        assert Split(s[1..]) == [""];
      } else {
        assert s[1..] == "";
      }
    } else {
      TrailingSepIffEmptyLast(s[1..]);
      assert s[1..][|s[1..]| - 1] == s[|s| - 1];
      var t := Split(s[1..]);
      if s[0] == Sep || |t| > 1 {
        assert Last(Split(s)) == Last(t);
      } else {
        assert Last(Split(s)) == [s[0]] + t[0];
      }
    }
  }
}
