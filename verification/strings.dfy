/** A small Option type, used for PHP lookups that may find nothing. */
module Optional {

  datatype Option<+T> = None | Some(value: T)
}

/**
 The string primitives the option store is built on: PHP's `explode('.', …)`,
 the inverse join, `strpos`/`strrpos` for a single character and substring
 search (`strpos($haystack, $needle) !== false`).
 */
module Strings {
  import opened Optional

  /** The path separator of dot notation. */
  const Dot: char := '.'

  /** `strpos($haystack, $needle) !== false`. An empty needle is found at offset 0. */
  predicate Contains(haystack: string, needle: string)
    decreases |haystack|
  {
    needle <= haystack || (|haystack| > 0 && Contains(haystack[1..], needle))
  }

  /** `strpos($s, $c)` for one character: the first offset of `c`, or None for PHP's `false`. */
  function IndexOf(s: string, c: char): (r: Option<nat>)
    ensures r.Some? ==> r.value < |s| && s[r.value] == c
  {
    if |s| == 0 then None
    else if s[0] == c then Some(0)
    else
      match IndexOf(s[1..], c)
      case None => None
      case Some(i) => Some(i + 1)
  }

  /** `strrpos($s, $c)` for one character: the last offset of `c`, or None for PHP's `false`. */
  function LastIndexOf(s: string, c: char): (r: Option<nat>)
    ensures r.Some? ==> r.value < |s| && s[r.value] == c
  {
    if |s| == 0 then None
    else if s[|s| - 1] == c then Some(|s| - 1)
    else LastIndexOf(s[..|s| - 1], c)
  }

  /** `strpos` answers `false` exactly when the character is absent, and otherwise finds its first occurrence. */
  lemma {:induction false} IndexOfFinds(s: string, c: char)
    ensures IndexOf(s, c).None? <==> c !in s
    ensures IndexOf(s, c).Some? ==>
              var i := IndexOf(s, c).value;
              i < |s| && s[i] == c && c !in s[..i]
    decreases |s|
  {
    if |s| > 0 && s[0] != c {
      IndexOfFinds(s[1..], c);
      assert s == [s[0]] + s[1..];
      if IndexOf(s[1..], c).Some? {
        var i := IndexOf(s[1..], c).value;
        assert s[..i + 1] == [s[0]] + s[1..][..i];
      }
    }
  }

  /** `strrpos` answers `false` exactly when the character is absent, and otherwise finds its last occurrence. */
  lemma {:induction false} LastIndexOfFinds(s: string, c: char)
    ensures LastIndexOf(s, c).None? <==> c !in s
    ensures LastIndexOf(s, c).Some? ==>
              var i := LastIndexOf(s, c).value;
              i < |s| && s[i] == c && c !in s[i + 1..]
    decreases |s|
  {
    if |s| > 0 && s[|s| - 1] != c {
      var init := s[..|s| - 1];
      LastIndexOfFinds(init, c);
      assert s == init + [s[|s| - 1]];
      if LastIndexOf(init, c).Some? {
        var i := LastIndexOf(init, c).value;
        assert s[i + 1..] == init[i + 1..] + [s[|s| - 1]];
      }
    }
  }

  /** `explode('.', $s)`: the segments between dots, always at least one, none containing a dot. */
  function Split(s: string): (r: seq<string>)
    ensures |r| >= 1
  {
    if s == [] then [""]
    else
      var r := Split(s[1..]);
      if s[0] == Dot then [""] + r
      else [[s[0]] + r[0]] + r[1..]
  }

  /** No segment of an explode contains the separator. */
  lemma {:induction false} SplitDotFree(s: string)
    ensures forall i :: 0 <= i < |Split(s)| ==> Dot !in Split(s)[i]
    decreases |s|
  {
    if s != [] {
      SplitDotFree(s[1..]);
      var r := Split(s[1..]);
      if s[0] != Dot {
        assert Dot !in [s[0]] + r[0];
        assert Split(s)[1..] == r[1..];
      }
    }
  }

  /** `implode('.', $segs)`. */
  function Join(segs: seq<string>): string
  {
    if |segs| == 0 then ""
    else if |segs| == 1 then segs[0]
    else segs[0] + [Dot] + Join(segs[1..])
  }

  /** No segment is empty: the path has no leading, trailing or doubled dot. */
  predicate NoEmptySegment(segs: seq<string>)
  {
    forall i :: 0 <= i < |segs| ==> segs[i] != ""
  }

  /** Neither path is a prefix of the other: they part ways at some depth. */
  predicate Diverges(p: seq<string>, q: seq<string>)
    decreases |p|
  {
    |p| > 0 && |q| > 0 && (p[0] != q[0] || Diverges(p[1..], q[1..]))
  }

  /** Joining the exploded segments gives the original string back. */
  lemma {:induction false} JoinSplit(s: string)
    ensures Join(Split(s)) == s
    decreases |s|
  {
    if s != [] {
      var r := Split(s[1..]);
      JoinSplit(s[1..]);
      if s[0] == Dot {
        assert Split(s) == [""] + r;
        assert ([""] + r)[1..] == r;
        assert s == [] + [Dot] + s[1..];
      } else if |r| == 1 {
        assert Split(s) == [[s[0]] + r[0]];
        assert s == [s[0]] + s[1..];
      } else {
        var segs := Split(s);
        assert segs == [[s[0]] + r[0]] + r[1..];
        assert segs[1..] == r[1..];
        assert Join(r) == r[0] + [Dot] + Join(r[1..]);
        assert s == [s[0]] + s[1..];
      }
    }
  }

  /** A string without a dot explodes to itself. */
  lemma {:induction false} SplitNoDot(s: string)
    requires Dot !in s
    ensures Split(s) == [s]
    decreases |s|
  {
    if s != [] {
      assert Dot !in s[1..] by {
        forall i | 0 <= i < |s[1..]| ensures s[1..][i] != Dot {
          assert s[1..][i] == s[i + 1];
        }
      }
      SplitNoDot(s[1..]);
      assert s == [s[0]] + s[1..];
    }
  }

  /** One step of `Split` on a string that starts with a dot. */
  lemma SplitConsDot(s: string, t: string)
    requires s == [Dot] + t
    ensures Split(s) == [""] + Split(t)
  {
    assert s[1..] == t;
  }

  /** One step of `Split` on a string that starts with another character. */
  lemma SplitConsChar(s: string, c: char, t: string)
    requires s == [c] + t && c != Dot
    ensures Split(s) == [[c] + Split(t)[0]] + Split(t)[1..]
  {
    assert s[1..] == t;
  }

  /** Prepending to a concatenation is prepending to its first part. */
  lemma ConsAppend(x: string, p: seq<string>, q: seq<string>)
    ensures [x] + (p + q) == ([x] + p) + q
  {
  }

  /** Gluing a prefix onto the first segment of a concatenation only touches its first part. */
  lemma GlueAppend(c: char, p: seq<string>, q: seq<string>)
    requires |p| >= 1
    ensures [[c] + (p + q)[0]] + (p + q)[1..] == ([[c] + p[0]] + p[1..]) + q
  {
    assert (p + q)[1..] == p[1..] + q;
  }

  /** Exploding around one dot concatenates the two explosions. */
  lemma {:induction false} SplitConcat(a: string, b: string)
    ensures Split(a + [Dot] + b) == Split(a) + Split(b)
    decreases |a|
  {
    var s := a + [Dot] + b;
    if a == [] {
      SplitConsDot(s, b);
    } else {
      var c, a', t := a[0], a[1..], a[1..] + [Dot] + b;
      assert s == [c] + t;
      assert a == [c] + a';
      SplitConcat(a', b);
      var ra, rb := Split(a'), Split(b);
      if c == Dot {
        SplitConsDot(s, t);
        SplitConsDot(a, a');
        ConsAppend("", ra, rb);
      } else {
        SplitConsChar(s, c, t);
        SplitConsChar(a, c, a');
        GlueAppend(c, ra, rb);
      }
    }
  }

  /** Exploding an imploded list of dot-free segments gives the segments back. */
  lemma {:induction false} SplitJoin(segs: seq<string>)
    requires |segs| >= 1
    requires forall i :: 0 <= i < |segs| ==> Dot !in segs[i]
    ensures Split(Join(segs)) == segs
    decreases |segs|
  {
    if |segs| == 1 {
      SplitNoDot(segs[0]);
    } else {
      SplitConcat(segs[0], Join(segs[1..]));
      SplitNoDot(segs[0]);
      SplitJoin(segs[1..]);
      assert segs == [segs[0]] + segs[1..];
    }
  }

  /** A string explodes to a single segment exactly when it has no dot. */
  lemma SplitSingle(s: string)
    ensures |Split(s)| == 1 <==> Dot !in s
  {
    IndexOfFinds(s, Dot);
    if Dot in s {
      var i := IndexOf(s, Dot).value;
      SplitAtFirstDot(s, i);
    } else {
      SplitNoDot(s);
    }
  }

  /** Cutting at the first dot peels off the first segment. */
  lemma SplitAtFirstDot(s: string, i: nat)
    requires IndexOf(s, Dot) == Some(i)
    ensures Split(s) == [s[..i]] + Split(s[i + 1..])
  {
    IndexOfFinds(s, Dot);
    assert s == s[..i] + [Dot] + s[i + 1..];
    SplitConcat(s[..i], s[i + 1..]);
    SplitNoDot(s[..i]);
  }

  /** Cutting at the last dot peels off the last segment. */
  lemma SplitAtLastDot(s: string, i: nat)
    requires LastIndexOf(s, Dot) == Some(i)
    ensures Split(s) == Split(s[..i]) + [s[i + 1..]]
  {
    LastIndexOfFinds(s, Dot);
    assert s == s[..i] + [Dot] + s[i + 1..];
    SplitConcat(s[..i], s[i + 1..]);
    SplitNoDot(s[i + 1..]);
  }
}
