/** Splitting and joining sequences at a separator element, with the laws the
    line parsers and serialisers of the server rely on. `Split` behaves like
    Rust's `split(sep)`: it always yields at least one piece, and two adjacent
    separators yield an empty piece between them. */
module Seqs {

  /** The pieces of `s` between occurrences of `sep`. */
  function Split<T(==)>(s: seq<T>, sep: T): (parts: seq<seq<T>>)
    ensures |parts| >= 1
    decreases |s|
  {
    if |s| == 0 then [[]]
    else if s[0] == sep then [[]] + Split(s[1..], sep)
    else
      var rest := Split(s[1..], sep);
      [[s[0]] + rest[0]] + rest[1..]
  }

  /** The pieces glued back together with one `sep` between neighbours. */
  function Join<T>(parts: seq<seq<T>>, sep: T): seq<T>
    decreases |parts|
  {
    if |parts| == 0 then []
    else if |parts| == 1 then parts[0]
    else parts[0] + [sep] + Join(parts[1..], sep)
  }

  /** The pieces of `parts` that are not empty, in order. */
  function NonEmpty<T>(parts: seq<seq<T>>): (r: seq<seq<T>>)
    ensures |r| <= |parts|
    ensures forall i :: 0 <= i < |r| ==> r[i] != []
    decreases |parts|
  {
    if |parts| == 0 then []
    else if parts[0] == [] then NonEmpty(parts[1..])
    else [parts[0]] + NonEmpty(parts[1..])
  }

  predicate Free<T(==)>(parts: seq<seq<T>>, sep: T) {
    forall i :: 0 <= i < |parts| ==> sep !in parts[i]
  }

  lemma {:induction false} JoinCons<T>(x: T, p: seq<T>, rest: seq<seq<T>>, sep: T)
    ensures Join([[x] + p] + rest, sep) == [x] + Join([p] + rest, sep)
  {
    if |rest| > 0 {
      assert ([[x] + p] + rest)[1..] == rest;
      assert ([p] + rest)[1..] == rest;
    }
  }

  /** Joining the pieces of a split gives back the original. */
  lemma {:induction false} JoinSplit<T>(s: seq<T>, sep: T)
    ensures Join(Split(s, sep), sep) == s
    decreases |s|
  {
    if |s| == 0 {
    } else if s[0] == sep {
      var rest := Split(s[1..], sep);
      JoinSplit(s[1..], sep);
      assert ([[]] + rest)[1..] == rest;
      assert s == [sep] + s[1..];
    } else {
      var rest := Split(s[1..], sep);
      JoinSplit(s[1..], sep);
      JoinCons(s[0], rest[0], rest[1..], sep);
      assert [rest[0]] + rest[1..] == rest;
      assert s == [s[0]] + s[1..];
    }
  }

  /** No piece of a split contains the separator. */
  lemma {:induction false} SplitFree<T>(s: seq<T>, sep: T)
    ensures Free(Split(s, sep), sep)
    decreases |s|
  {
    if |s| > 0 {
      SplitFree(s[1..], sep);
      if s[0] != sep {
        var rest := Split(s[1..], sep);
        assert sep !in rest[0];
        assert sep !in [s[0]] + rest[0];
      }
    }
  }

  /** A sequence without the separator is its own single piece. */
  lemma {:induction false} SplitWithout<T>(s: seq<T>, sep: T)
    requires sep !in s
    ensures Split(s, sep) == [s]
    decreases |s|
  {
    if |s| > 0 {
      SplitWithout(s[1..], sep);
      assert s == [s[0]] + s[1..];
    }
  }

  /** Splitting distributes over a separator occurrence. */
  lemma {:induction false} SplitAt<T>(a: seq<T>, b: seq<T>, sep: T)
    ensures Split(a + [sep] + b, sep) == Split(a, sep) + Split(b, sep)
    decreases |a|
  {
    var s := a + [sep] + b;
    if |a| == 0 {
      assert s == [sep] + b;
      assert s[1..] == b;
    } else {
      assert s[0] == a[0];
      assert s[1..] == a[1..] + [sep] + b;
      SplitAt(a[1..], b, sep);
      if a[0] != sep {
        var ra := Split(a[1..], sep);
        assert (ra + Split(b, sep))[0] == ra[0];
        assert (ra + Split(b, sep))[1..] == ra[1..] + Split(b, sep);
      }
    }
  }

  /** A separator-free field in front of a rest splits off as one piece. */
  lemma SplitOne<T>(a: seq<T>, c: seq<T>, sep: T)
    requires sep !in a
    ensures Split(a + [sep] + c, sep) == [a] + Split(c, sep)
  {
    SplitAt(a, c, sep);
    SplitWithout(a, sep);
  }

  /** Two separator-free fields in front of a rest split off as two pieces. */
  lemma SplitTwo<T>(a: seq<T>, b: seq<T>, c: seq<T>, sep: T)
    requires sep !in a && sep !in b
    ensures Split(a + [sep] + (b + [sep] + c), sep) == [a, b] + Split(c, sep)
  {
    SplitOne(b, c, sep);
    SplitOne(a, b + [sep] + c, sep);
    assert [a] + ([b] + Split(c, sep)) == [a, b] + Split(c, sep);
  }

  /** Splitting a join of separator-free pieces gives back the pieces. */
  lemma {:induction false} SplitJoin<T>(parts: seq<seq<T>>, sep: T)
    requires |parts| >= 1 && Free(parts, sep)
    ensures Split(Join(parts, sep), sep) == parts
    decreases |parts|
  {
    if |parts| == 1 {
      SplitWithout(parts[0], sep);
    } else {
      SplitJoin(parts[1..], sep);
      SplitWithout(parts[0], sep);
      SplitAt(parts[0], Join(parts[1..], sep), sep);
      assert [parts[0]] + parts[1..] == parts;
    }
  }

  /** There is one more piece than there are separators. */
  lemma {:induction false} SplitCount<T>(s: seq<T>, sep: T)
    ensures |Split(s, sep)| == multiset(s)[sep] + 1
    decreases |s|
  {
    if |s| > 0 {
      SplitCount(s[1..], sep);
      assert s == [s[0]] + s[1..];
      assert multiset(s) == multiset([s[0]]) + multiset(s[1..]);
    }
  }

  /** A split has at least two pieces exactly when the separator occurs. */
  lemma SplitHasTwo<T>(s: seq<T>, sep: T)
    ensures |Split(s, sep)| >= 2 <==> sep in s
  {
    SplitCount(s, sep);
  }

  /** Two separator positions give at least three pieces. */
  lemma SplitHasThree<T>(s: seq<T>, sep: T, i: nat, j: nat)
    requires i < j < |s| && s[i] == sep && s[j] == sep
    ensures |Split(s, sep)| >= 3
  {
    SplitCount(s, sep);
    assert s == s[..j] + s[j..];
    assert multiset(s) == multiset(s[..j]) + multiset(s[j..]);
    assert s[..j][i] == sep;
    assert s[j..][0] == sep;
  }

  /** Joining pieces splits off the first one. */
  lemma JoinFirst<T>(parts: seq<seq<T>>, sep: T)
    requires |parts| >= 2
    ensures Join(parts, sep) == parts[0] + [sep] + Join(parts[1..], sep)
  {
  }

  /** Three and four pieces joined, written out. */
  lemma Join3<T>(w0: seq<T>, w1: seq<T>, w2: seq<T>, sep: T)
    ensures Join([w0, w1, w2], sep) == w0 + [sep] + w1 + [sep] + w2
  {
    assert [w0, w1, w2][1..] == [w1, w2];
    assert [w1, w2][1..] == [w2];
    assert Join([w1, w2], sep) == w1 + [sep] + w2;
  }

  lemma Join4<T>(w0: seq<T>, w1: seq<T>, w2: seq<T>, w3: seq<T>, sep: T)
    ensures Join([w0, w1, w2, w3], sep) == w0 + [sep] + w1 + [sep] + w2 + [sep] + w3
  {
    assert [w0, w1, w2, w3][1..] == [w1, w2, w3];
    Join3(w1, w2, w3, sep);
  }

  lemma {:induction false} NonEmptyConcat<T>(a: seq<seq<T>>, b: seq<seq<T>>)
    ensures NonEmpty(a + b) == NonEmpty(a) + NonEmpty(b)
    decreases |a|
  {
    if |a| == 0 {
      assert a + b == b;
    } else {
      assert (a + b)[0] == a[0];
      assert (a + b)[1..] == a[1..] + b;
      NonEmptyConcat(a[1..], b);
      if a[0] != [] {
        assert [a[0]] + NonEmpty(a[1..]) + NonEmpty(b) == [a[0]] + (NonEmpty(a[1..]) + NonEmpty(b));
      }
    }
  }

  /** Every piece kept by `NonEmpty` is one of the original pieces. */
  lemma {:induction false} NonEmptyFree<T>(parts: seq<seq<T>>, sep: T)
    requires Free(parts, sep)
    ensures Free(NonEmpty(parts), sep)
    decreases |parts|
  {
    if |parts| > 0 {
      NonEmptyFree(parts[1..], sep);
    }
  }
}
