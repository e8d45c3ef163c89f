/**
 The dot-path engine of `OptionsHelper`: turning a dotted key and a value into
 a chain of nested arrays, expanding dotted keys at every depth of a data
 array, walking the first keys of an array back into a dotted string, the
 two segment-stripping helpers, the substring search that returns a pruned
 sub-tree, and the path lookup behind `getOption`.
 */
module OptionsHelper {
  import opened Optional
  import opened Strings
  import opened PhpArray
  import opened ArrayHelper

  /*** Building nested arrays from dotted keys ***/

  /** `array(s0 => array(s1 => … array(sn => $w)))`: one single-key level per segment. */
  function Chain(segs: seq<string>, w: Value): (r: Assoc)
    requires |segs| >= 1
    ensures Keys(r) == {segs[0]}
    decreases |segs|
  {
    if |segs| == 1 then Cons(segs[0], w, Nil)
    else Cons(segs[0], Arr(Chain(segs[1..], w)), Nil)
  }

  /**
   The part of `dotStringToArray($key, $w)` after its value is normalised:
   a dotted key is exploded into a chain, a plain key gives `array($key => $w)`.
   */
  function Fragment(key: string, w: Value): (r: Assoc)
  {
    if Dot in key then Chain(Split(key), w) else Cons(key, w, Nil)
  }

  /** A value as `dotStringToArray` and `dotDataToArray` pass it on: arrays are normalised first. */
  function NormValue(v: Value): (r: Value)
    ensures r.Arr? <==> v.Arr?
    ensures v.Arr? && v.a == Nil ==> r == v
    ensures !v.Arr? ==> r == v
    decreases v, 2
  {
    if v.Arr? then Arr(DotDataToArray(v.a)) else v
  }

  /** `OptionsHelper::dotStringToArray($dataKey, $dataValue)`. */
  function DotStringToArray(key: string, value: Value): (r: Assoc)
    ensures Keys(r) == {Split(key)[0]}
    ensures Normal(r)
  {
    FragmentIsChain(key, NormValue(value));
    NormValueNormal(value);
    SplitDotFree(key);
    ChainNormal(Split(key), NormValue(value));
    Fragment(key, NormValue(value))
  }

  /**
   `OptionsHelper::dotDataToArray($data)`: every entry, its value normalised
   first, becomes a fragment (a chain for a dotted key), and the fragments
   are merged together in order.
   */
  function DotDataToArray(data: Assoc): (r: Assoc)
    ensures data == Nil ==> r == Nil
    ensures Keys(r) == {} <==> data == Nil
    decreases data, 1
  {
    if data == Nil then Nil
    else Fold(Nil, data)
  }

  /** The `foreach` of `dotDataToArray`, from the array accumulated so far. */
  function Fold(acc: Assoc, data: Assoc): (r: Assoc)
    ensures Keys(acc) <= Keys(r)
    ensures data != Nil ==> Keys(r) != {}
    decreases data, 0
  {
    match data
    case Nil => acc
    case Cons(k, v, rest) =>
      // The source calls dotStringToArray here, which normalises the value a second
      // time; DotDataToArrayStep shows the second pass changes nothing.
      var frag := Fragment(k, NormValue(v));
      assert Keys(frag) != {} by { FragmentIsChain(k, NormValue(v)); }
      Fold(Merge(acc, frag), rest)
  }

  lemma FragmentIsChain(key: string, w: Value)
    ensures Fragment(key, w) == Chain(Split(key), w)
  {
    if Dot !in key {
      SplitNoDot(key);
    }
  }

  /** A chain of dot-free segments ending in a normal value is normal. */
  lemma {:induction false} ChainNormal(segs: seq<string>, w: Value)
    requires |segs| >= 1
    requires forall i :: 0 <= i < |segs| ==> Dot !in segs[i]
    requires NormalValue(w)
    ensures Normal(Chain(segs, w))
    decreases |segs|
  {
    if |segs| > 1 {
      ChainNormal(segs[1..], w);
    }
  }

  /** No key at any depth of `dotDataToArray`'s result contains a dot, and none repeats. */
  lemma {:induction false} DotDataToArrayNormal(data: Assoc)
    ensures Normal(DotDataToArray(data))
    decreases data, 1
  {
    if data != Nil {
      FoldNormal(Nil, data);
    }
  }

  lemma {:induction false} FoldNormal(acc: Assoc, data: Assoc)
    requires Normal(acc)
    ensures Normal(Fold(acc, data))
    decreases data, 0
  {
    match data
    case Nil =>
    case Cons(k, v, rest) =>
      NormValueNormal(v);
      FragmentIsChain(k, NormValue(v));
      SplitDotFree(k);
      ChainNormal(Split(k), NormValue(v));
      MergeNormal(acc, Fragment(k, NormValue(v)));
      FoldNormal(Merge(acc, Fragment(k, NormValue(v))), rest);
  }

  lemma {:induction false} NormValueNormal(v: Value)
    ensures NormalValue(NormValue(v))
    decreases v, 2
  {
    if v.Arr? {
      DotDataToArrayNormal(v.a);
    }
  }

  /** Data that is already nested, with no dotted key and no repeated key, is left as it is. */
  lemma {:induction false} NormalFixed(a: Assoc)
    requires Normal(a)
    ensures DotDataToArray(a) == a
    decreases a, 1
  {
    if a != Nil {
      FoldAppends(Nil, a);
    }
  }

  /** Over normal data the fold only appends each entry to the accumulator. */
  lemma {:induction false} FoldAppends(acc: Assoc, data: Assoc)
    requires Unique(acc) && Normal(data) && Keys(acc) !! Keys(data)
    ensures Fold(acc, data) == Concat(acc, data)
    decreases data, 0
  {
    match data
    case Nil => ConcatNil(acc);
    case Cons(k, v, rest) =>
      assert NormalValue(v);
      NormValueFixed(v);
      assert Fragment(k, v) == Cons(k, v, Nil);
      var one := Cons(k, v, Nil);
      assert Get(acc, k) == None;
      assert Merge(acc, one) == Put(acc, k, v);
      PutAbsentAppends(acc, k, v);
      var acc' := Concat(acc, one);
      ConcatUnique(acc, one);
      FoldAppends(acc', rest);
      ConcatAssoc(acc, one, rest);
  }

  lemma {:induction false} NormValueFixed(v: Value)
    requires NormalValue(v)
    ensures NormValue(v) == v
    decreases v, 2
  {
    if v.Arr? {
      NormalFixed(v.a);
    }
  }

  /** `dotDataToArray` is idempotent. */
  lemma DotDataToArrayIdempotent(data: Assoc)
    ensures DotDataToArray(DotDataToArray(data)) == DotDataToArray(data)
  {
    DotDataToArrayNormal(data);
    NormalFixed(DotDataToArray(data));
  }

  /**
   Inside `dotDataToArray` the source hands the already-normalised value to
   `dotStringToArray`, which normalises it again; that is the fragment the model folds.
   */
  lemma DotDataToArrayStep(k: string, v: Value)
    ensures DotStringToArray(k, NormValue(v)) == Fragment(k, NormValue(v))
  {
    NormValueNormal(v);
    NormValueFixed(NormValue(v));
  }

  /** `dotStringToArray` explodes the key into one single-key level per segment, normalised value at the bottom. */
  lemma DotStringToArrayIsChain(key: string, value: Value)
    ensures DotStringToArray(key, value) == Chain(Split(key), NormValue(value))
    ensures DotDataToArray(DotStringToArray(key, value)) == DotStringToArray(key, value)
  {
    FragmentIsChain(key, NormValue(value));
    NormalFixed(DotStringToArray(key, value));
  }

  /*** Back from nested arrays to a dotted string ***/

  /** The first key of each level, descending while the value is a non-empty array. */
  function FirstKeys(v: Value): (r: seq<string>)
  {
    if v.Arr? && v.a.Cons? then [v.a.key] + FirstKeys(v.a.val) else []
  }

  /** The string the `while` loop of `arrayToDotString` accumulates: each first key followed by a dot. */
  function KeysWithDots(v: Value): string
  {
    if v.Arr? && v.a.Cons? then v.a.key + [Dot] + KeysWithDots(v.a.val) else ""
  }

  /** `OptionsHelper::arrayToDotString($array)`: the loop's string without its last dot. */
  function ArrayToDotString(v: Value): (r: string)
    ensures r == Join(FirstKeys(v))
  {
    var s := KeysWithDots(v);
    KeysWithDotsJoin(v);
    if |s| == 0 then "" else s[..|s| - 1]
  }

  lemma {:induction false} KeysWithDotsJoin(v: Value)
    ensures FirstKeys(v) == [] ==> KeysWithDots(v) == ""
    ensures FirstKeys(v) != [] ==> KeysWithDots(v) == Join(FirstKeys(v)) + [Dot]
  {
    if v.Arr? && v.a.Cons? {
      var w := v.a.val;
      KeysWithDotsJoin(w);
      if FirstKeys(w) != [] {
        assert FirstKeys(v)[1..] == FirstKeys(w);
      }
    }
  }

  /** The first keys of a chain are its segments, when the bottom value is not a non-empty array. */
  lemma {:induction false} ChainFirstKeys(segs: seq<string>, w: Value)
    requires |segs| >= 1
    requires !(w.Arr? && w.a != Nil)
    ensures FirstKeys(Arr(Chain(segs, w))) == segs
    decreases |segs|
  {
    if |segs| > 1 {
      ChainFirstKeys(segs[1..], w);
    }
  }

  /** `arrayToDotString(dotStringToArray($p, $v)) === $p` unless `$v` is a non-empty array. */
  lemma ArrayToDotStringRoundTrip(p: string, v: Value)
    requires !(v.Arr? && v.a != Nil)
    ensures ArrayToDotString(Arr(DotStringToArray(p, v))) == p
  {
    DotStringToArrayIsChain(p, v);
    ChainFirstKeys(Split(p), NormValue(v));
    JoinSplit(p);
  }

  /*** Reading by path ***/

  /**
   The `foreach` of `getOption`: descend one segment at a time; give up with
   the not-found value as soon as the node is not an array or the segment is
   not set (absent, or null, which is what `isset` rejects).
   */
  function GetPath(node: Value, segs: seq<string>, notFound: Value): (r: Value)
    ensures segs != [] ==> r == notFound || r != Null
    decreases |segs|
  {
    if segs == [] then node
    else if !node.Arr? then notFound
    else
      match Get(node.a, segs[0])
      case None => notFound
      case Some(x) => if x == Null then notFound else GetPath(x, segs[1..], notFound)
  }

  /** `getOption($key, $notFoundValue)` over the option tree `options`. */
  function GetOption(options: Assoc, key: string, notFound: Value): (r: Value)
    ensures r == notFound || r != Null
  {
    GetPath(Arr(options), Split(key), notFound)
  }

  /** Looking up a chain along its own segments finds its bottom value, unless that is null. */
  lemma {:induction false} GetPathChain(segs: seq<string>, w: Value, notFound: Value)
    requires |segs| >= 1
    ensures GetPath(Arr(Chain(segs, w)), segs, notFound) == if w == Null then notFound else w
    decreases |segs|
  {
    if |segs| > 1 {
      GetPathChain(segs[1..], w, notFound);
    }
  }

  /**
   Merging a chain in makes its path read back its non-null bottom value,
   provided an array bottom does not land on an array already there.
   */
  lemma {:induction false} MergeChainSets(t: Assoc, segs: seq<string>, w: Value, notFound: Value)
    requires |segs| >= 1 && w != Null
    requires w.Arr? ==> !GetPath(Arr(t), segs, Null).Arr?
    ensures GetPath(Arr(Merge(t, Chain(segs, w))), segs, notFound) == w
    decreases |segs|
  {
    var k := segs[0];
    var chain := Chain(segs, w);
    GetMerge(t, chain, k);
    if |segs| > 1 {
      var existing := Get(t, k);
      if existing.Some? && existing.value.Arr? {
        MergeChainSets(existing.value.a, segs[1..], w, notFound);
      } else {
        GetPathChain(segs[1..], w, notFound);
      }
    }
  }

  /** Merging an array chain onto a path that holds an array merges the two there. */
  lemma {:induction false} MergeChainMerges(t: Assoc, segs: seq<string>, a: Assoc, b: Assoc, notFound: Value)
    requires |segs| >= 1
    requires GetPath(Arr(t), segs, Null) == Arr(a)
    ensures GetPath(Arr(Merge(t, Chain(segs, Arr(b)))), segs, notFound) == Arr(Merge(a, b))
    decreases |segs|
  {
    var k := segs[0];
    GetMerge(t, Chain(segs, Arr(b)), k);
    if |segs| > 1 {
      MergeChainMerges(Get(t, k).value.a, segs[1..], a, b, notFound);
    }
  }

  /** One step of the lookup loop on an array node. */
  lemma GetPathStep(a: Assoc, q: seq<string>, notFound: Value)
    requires |q| >= 1
    ensures GetPath(Arr(a), q, notFound) ==
            match Get(a, q[0])
            case None => notFound
            case Some(x) => if x == Null then notFound else GetPath(x, q[1..], notFound)
  {
  }

  /** Merging a chain in leaves every path that parts ways with it reading as before. */
  lemma {:induction false} MergeChainElsewhere(t: Assoc, segs: seq<string>, w: Value, q: seq<string>, notFound: Value)
    requires |segs| >= 1
    requires Diverges(q, segs)
    ensures GetPath(Arr(Merge(t, Chain(segs, w))), q, notFound) == GetPath(Arr(t), q, notFound)
    decreases |segs|
  {
    var k := segs[0];
    var chain := Chain(segs, w);
    var m := Merge(t, chain);
    GetMerge(t, chain, q[0]);
    GetPathStep(m, q, notFound);
    GetPathStep(t, q, notFound);
    if q[0] == k {
      var r := segs[1..];
      var tail := Chain(r, w);
      assert Get(chain, k) == Some(Arr(tail));
      var existing := Get(t, k);
      if existing.Some? && existing.value.Arr? {
        MergeChainElsewhere(existing.value.a, r, w, q[1..], notFound);
      } else {
        assert Merge(Nil, tail) == tail;
        MergeChainElsewhere(Nil, r, w, q[1..], notFound);
        assert GetPath(Arr(Nil), q[1..], notFound) == notFound;
      }
    }
  }

  /** Pruning leaves every path that reads a non-null scalar reading the same scalar. */
  lemma {:induction false} GetPathPrune(t: Assoc, q: seq<string>, s: string, notFound: Value)
    requires Wf(t)
    requires GetPath(Arr(t), q, Null) == Str(s)
    ensures GetPath(Arr(Prune(t)), q, notFound) == Str(s)
    decreases |q|
  {
    var k := q[0];
    WfUnique(t);
    GetPrune(t, k);
    var x := Get(t, k).value;
    if |q| > 1 {
      GetWf(t, k);
      GetPathPrune(x.a, q[1..], s, Null);
      GetPathPrune(x.a, q[1..], s, notFound);
    }
  }

  /** Writing null along a path and pruning leaves nothing readable at that path. */
  lemma {:induction false} UnsetPathReadsNotFound(t: Assoc, segs: seq<string>, notFound: Value)
    requires Wf(t) && |segs| >= 1
    ensures GetPath(Arr(Prune(Merge(t, Chain(segs, Null)))), segs, notFound) == notFound
    decreases |segs|
  {
    var k := segs[0];
    var chain := Chain(segs, Null);
    ChainWf(segs, Null);
    MergeWf(t, chain);
    var m := Merge(t, chain);
    WfUnique(m);
    GetMerge(t, chain, k);
    GetPrune(m, k);
    if |segs| > 1 {
      var r := segs[1..];
      var existing := Get(t, k);
      if existing.Some? && existing.value.Arr? {
        GetWf(t, k);
        UnsetPathReadsNotFound(existing.value.a, r, notFound);
      } else {
        assert Merge(Nil, Chain(r, Null)) == Chain(r, Null);
        UnsetPathReadsNotFound(Nil, r, notFound);
      }
    }
  }

  /** A chain ending in null is swept away whole: every level is emptied in turn. */
  lemma {:induction false} PruneNullChain(segs: seq<string>)
    requires |segs| >= 1
    ensures Prune(Chain(segs, Null)) == Nil
    decreases |segs|
  {
    if |segs| > 1 {
      PruneNullChain(segs[1..]);
    }
  }

  lemma {:induction false} ChainWf(segs: seq<string>, w: Value)
    requires |segs| >= 1 && WfValue(w)
    ensures Wf(Chain(segs, w))
    decreases |segs|
  {
    if |segs| > 1 {
      ChainWf(segs[1..], w);
    }
  }

  /*** Segment-stripping helpers ***/

  /*
   Both helpers loop while `$level !== 0`, moving `$level` one step towards
   zero, so its sign never changes: the loop is modelled as two walks, one per
   direction, and a positive or negative `level` picks the walk.
   */

  /**
   `OptionsHelper::dotStringModifyLevel($dotString, $level)`: strip one
   leading (level > 0) or trailing (level < 0) segment per step, giving ''
   as soon as a step finds no dot, or finds it at offset 0.
   */
  function DotStringModifyLevel(s: string, level: int): (r: string)
    ensures level >= 0 ==> IsSuffix(r, s)
    ensures level < 0 ==> IsPrefix(r, s)
  {
    if level < 0 then
      StripTrailingPrefix(s, -level);
      StripTrailing(s, -level)
    else
      StripLeadingSuffix(s, level);
      StripLeading(s, level)
  }

  /** The loop of `dotStringModifyLevel` for a positive level: `strpos`, then `substr($s, $found + 1)`. */
  function StripLeading(s: string, n: nat): string
    decreases n
  {
    if n == 0 then s
    else
      var found := IndexOf(s, Dot);
      if found.Some? && found.value > 0 then StripLeading(s[found.value + 1..], n - 1) else ""
  }

  /** The loop of `dotStringModifyLevel` for a negative level: `strrpos`, then `substr($s, 0, $found)`. */
  function StripTrailing(s: string, n: nat): string
    decreases n
  {
    if n == 0 then s
    else
      var found := LastIndexOf(s, Dot);
      if found.Some? && found.value > 0 then StripTrailing(s[..found.value], n - 1) else ""
  }

  /**
   `OptionsHelper::dotStringLevel($dotString, $level)`: the same walk, but the
   answer is the segment removed by the last step.
   */
  function DotStringLevel(s: string, level: int): (r: string)
    ensures level != 0 ==> Dot !in r
  {
    if level < 0 then
      LevelTrailingSegment(s, -level, s);
      LevelTrailing(s, -level, s)
    else if level > 0 then
      LevelLeadingSegment(s, level, s);
      LevelLeading(s, level, s)
    else LevelLeading(s, level, s)
  }

  /** The loop of `dotStringLevel` for a positive level, with `$return` holding `last`. */
  function LevelLeading(s: string, n: nat, last: string): string
    decreases n
  {
    if n == 0 then last
    else
      var found := IndexOf(s, Dot);
      if found.Some? && found.value > 0 then LevelLeading(s[found.value + 1..], n - 1, s[..found.value]) else ""
  }

  /** The loop of `dotStringLevel` for a negative level. */
  function LevelTrailing(s: string, n: nat, last: string): string
    decreases n
  {
    if n == 0 then last
    else
      var found := LastIndexOf(s, Dot);
      if found.Some? && found.value > 0 then LevelTrailing(s[..found.value], n - 1, s[found.value + 1..]) else ""
  }

  /** `r` is what is left of `s` after cutting off a front part. */
  predicate IsSuffix(r: string, s: string)
  {
    |r| <= |s| && r == s[|s| - |r|..]
  }

  /** `r` is what is left of `s` after cutting off a back part. */
  predicate IsPrefix(r: string, s: string)
  {
    |r| <= |s| && r == s[..|r|]
  }

  lemma SuffixOfSuffix(r: string, t: string, s: string, k: nat)
    requires IsSuffix(r, t) && k <= |s| && t == s[k..]
    ensures IsSuffix(r, s)
  {
    assert t[|t| - |r|..] == s[|s| - |r|..];
  }

  lemma PrefixOfPrefix(r: string, t: string, s: string, k: nat)
    requires IsPrefix(r, t) && k <= |s| && t == s[..k]
    ensures IsPrefix(r, s)
  {
    assert t[..|r|] == s[..|r|];
  }

  /** Each forward step keeps what follows a dot, so what is left is a suffix of the path. */
  lemma {:induction false} StripLeadingSuffix(s: string, n: nat)
    ensures IsSuffix(StripLeading(s, n), s)
    decreases n
  {
    if n == 0 {
      assert s[|s| - |s|..] == s;
    } else {
      var found := IndexOf(s, Dot);
      if found.Some? && found.value > 0 {
        var rest := s[found.value + 1..];
        assert StripLeading(s, n) == StripLeading(rest, n - 1);
        StripLeadingSuffix(rest, n - 1);
        SuffixOfSuffix(StripLeading(rest, n - 1), rest, s, found.value + 1);
      } else {
        assert StripLeading(s, n) == "";
        assert s[|s|..] == "";
      }
    }
  }

  /** Each backward step keeps what precedes a dot, so what is left is a prefix of the path. */
  lemma {:induction false} StripTrailingPrefix(s: string, n: nat)
    ensures IsPrefix(StripTrailing(s, n), s)
    decreases n
  {
    if n == 0 {
      assert s[..|s|] == s;
    } else {
      var found := LastIndexOf(s, Dot);
      if found.Some? && found.value > 0 {
        var init := s[..found.value];
        assert StripTrailing(s, n) == StripTrailing(init, n - 1);
        StripTrailingPrefix(init, n - 1);
        PrefixOfPrefix(StripTrailing(init, n - 1), init, s, found.value);
      } else {
        assert StripTrailing(s, n) == "";
        assert s[..0] == "";
      }
    }
  }

  /** A forward step names what precedes the first dot, so the answer never holds a dot. */
  lemma {:induction false} LevelLeadingSegment(s: string, n: nat, last: string)
    requires n > 0
    ensures Dot !in LevelLeading(s, n, last)
    decreases n
  {
    var found := IndexOf(s, Dot);
    if found.Some? && found.value > 0 {
      var i := found.value;
      if n == 1 {
        IndexOfFinds(s, Dot);
        assert LevelLeading(s[i + 1..], 0, s[..i]) == s[..i];
      } else {
        LevelLeadingSegment(s[i + 1..], n - 1, s[..i]);
      }
    }
  }

  /** A backward step names what follows the last dot, so the answer never holds a dot. */
  lemma {:induction false} LevelTrailingSegment(s: string, n: nat, last: string)
    requires n > 0
    ensures Dot !in LevelTrailing(s, n, last)
    decreases n
  {
    var found := LastIndexOf(s, Dot);
    if found.Some? && found.value > 0 {
      var i := found.value;
      if n == 1 {
        LastIndexOfFinds(s, Dot);
        assert LevelTrailing(s[..i], 0, s[i + 1..]) == s[i + 1..];
      } else {
        LevelTrailingSegment(s[..i], n - 1, s[i + 1..]);
      }
    }
  }

  /** Dropping the first or the last segment keeps a path free of empty segments. */
  lemma NoEmptySegmentSlices(segs: seq<string>)
    requires |segs| >= 1 && NoEmptySegment(segs)
    ensures NoEmptySegment(segs[1..]) && NoEmptySegment(segs[..|segs| - 1])
  {
    assert forall j :: 0 <= j < |segs| - 1 ==> segs[1..][j] == segs[j + 1];
    assert forall j :: 0 <= j < |segs| - 1 ==> segs[..|segs| - 1][j] == segs[j];
  }

  /** One forward step: on a path without empty segments the first dot is past offset 0. */
  lemma StepLeading(s: string) returns (i: nat)
    requires NoEmptySegment(Split(s)) && |Split(s)| > 1
    ensures IndexOf(s, Dot) == Some(i) && i > 0
    ensures Split(s[i + 1..]) == Split(s)[1..] && NoEmptySegment(Split(s[i + 1..]))
    ensures Split(s)[0] == s[..i]
  {
    SplitSingle(s);
    IndexOfFinds(s, Dot);
    i := IndexOf(s, Dot).value;
    SplitAtFirstDot(s, i);
    NoEmptySegmentSlices(Split(s));
    assert Split(s)[0] != "";
  }

  /** One backward step: on a path without empty segments the last dot is past offset 0. */
  lemma StepTrailing(s: string) returns (i: nat)
    requires NoEmptySegment(Split(s)) && |Split(s)| > 1
    ensures LastIndexOf(s, Dot) == Some(i) && i > 0
    ensures Split(s[..i]) == Split(s)[..|Split(s)| - 1] && NoEmptySegment(Split(s[..i]))
    ensures Split(s)[|Split(s)| - 1] == s[i + 1..]
  {
    SplitSingle(s);
    LastIndexOfFinds(s, Dot);
    i := LastIndexOf(s, Dot).value;
    SplitAtLastDot(s, i);
    NoEmptySegmentSlices(Split(s));
    assert Split(s[..i])[0] == Split(s)[0];
  }

  /** One forward step of `dotStringModifyLevel` on a path without empty segments. */
  lemma CutStepLeading(s: string, n: nat) returns (rest: string)
    requires n > 0 && NoEmptySegment(Split(s)) && |Split(s)| > 1
    ensures StripLeading(s, n) == StripLeading(rest, n - 1)
    ensures Split(rest) == Split(s)[1..] && NoEmptySegment(Split(rest))
  {
    var i := StepLeading(s);
    rest := s[i + 1..];
  }

  /** One backward step of `dotStringModifyLevel` on a path without empty segments. */
  lemma CutStepTrailing(s: string, n: nat) returns (init: string)
    requires n > 0 && NoEmptySegment(Split(s)) && |Split(s)| > 1
    ensures StripTrailing(s, n) == StripTrailing(init, n - 1)
    ensures Split(init) == Split(s)[..|Split(s)| - 1] && NoEmptySegment(Split(init))
  {
    var i := StepTrailing(s);
    init := s[..i];
  }

  /** One forward step of `dotStringLevel`: the segment it removes becomes the answer so far. */
  lemma WalkStepLeading(s: string, n: nat, last: string) returns (rest: string)
    requires n > 0 && NoEmptySegment(Split(s)) && |Split(s)| > 1
    ensures LevelLeading(s, n, last) == LevelLeading(rest, n - 1, Split(s)[0])
    ensures Split(rest) == Split(s)[1..] && NoEmptySegment(Split(rest))
  {
    var i := StepLeading(s);
    rest := s[i + 1..];
  }

  /** One backward step of `dotStringLevel`. */
  lemma WalkStepTrailing(s: string, n: nat, last: string) returns (init: string)
    requires n > 0 && NoEmptySegment(Split(s)) && |Split(s)| > 1
    ensures LevelTrailing(s, n, last) == LevelTrailing(init, n - 1, Split(s)[|Split(s)| - 1])
    ensures Split(init) == Split(s)[..|Split(s)| - 1] && NoEmptySegment(Split(init))
  {
    var i := StepTrailing(s);
    init := s[..i];
  }

  /*
   The four walks below replay the two loops on the list of segments instead
   of the string: `[]` stands for the empty answer ''. Each loop is first shown
   to follow its walk step by step, and the walk is then solved once and for all.
   */

  /** The forward walk of `dotStringModifyLevel`: drop one leading segment per step. */
  function LeadingCut(segs: seq<string>, n: nat): seq<string>
    decreases n
  {
    if n == 0 then segs
    else if |segs| <= 1 then []
    else LeadingCut(segs[1..], n - 1)
  }

  /** The backward walk of `dotStringModifyLevel`: drop one trailing segment per step. */
  function TrailingCut(segs: seq<string>, n: nat): seq<string>
    decreases n
  {
    if n == 0 then segs
    else if |segs| <= 1 then []
    else TrailingCut(segs[..|segs| - 1], n - 1)
  }

  /** The forward walk of `dotStringLevel`: the answer is the segment dropped last. */
  function LeadingWalk(segs: seq<string>, n: nat, last: string): string
    decreases n
  {
    if n == 0 then last
    else if |segs| <= 1 then ""
    else LeadingWalk(segs[1..], n - 1, segs[0])
  }

  /** The backward walk of `dotStringLevel`. */
  function TrailingWalk(segs: seq<string>, n: nat, last: string): string
    decreases n
  {
    if n == 0 then last
    else if |segs| <= 1 then ""
    else TrailingWalk(segs[..|segs| - 1], n - 1, segs[|segs| - 1])
  }

  lemma {:induction false} LeadingCutDrops(segs: seq<string>, n: nat)
    ensures LeadingCut(segs, n) == if n < |segs| then segs[n..] else []
    decreases n
  {
    if n == 0 {
      assert segs[0..] == segs;
    } else if |segs| > 1 {
      LeadingCutDrops(segs[1..], n - 1);
      if n < |segs| {
        assert segs[1..][n - 1..] == segs[n..];
      }
    }
  }

  lemma {:induction false} TrailingCutDrops(segs: seq<string>, n: nat)
    ensures TrailingCut(segs, n) == if n < |segs| then segs[..|segs| - n] else []
    decreases n
  {
    if n == 0 {
      assert segs[..|segs|] == segs;
    } else if |segs| > 1 {
      TrailingCutDrops(segs[..|segs| - 1], n - 1);
      if n < |segs| {
        assert segs[..|segs| - 1][..|segs| - 1 - (n - 1)] == segs[..|segs| - n];
      }
    }
  }

  lemma {:induction false} LeadingWalkNames(segs: seq<string>, n: nat, last: string)
    requires n > 0
    ensures LeadingWalk(segs, n, last) == if n < |segs| then segs[n - 1] else ""
    decreases n
  {
    if |segs| > 1 && n > 1 {
      LeadingWalkNames(segs[1..], n - 1, segs[0]);
    }
  }

  lemma {:induction false} TrailingWalkNames(segs: seq<string>, n: nat, last: string)
    requires n > 0
    ensures TrailingWalk(segs, n, last) == if n < |segs| then segs[|segs| - n] else ""
    decreases n
  {
    if |segs| > 1 && n > 1 {
      TrailingWalkNames(segs[..|segs| - 1], n - 1, segs[|segs| - 1]);
    }
  }

  /** `dotStringModifyLevel` with a positive level follows the forward walk on the segments. */
  lemma {:induction false} StripLeadingFollowsCut(s: string, n: nat)
    requires NoEmptySegment(Split(s))
    ensures StripLeading(s, n) == Join(LeadingCut(Split(s), n))
    decreases n
  {
    var segs := Split(s);
    if n == 0 {
      JoinSplit(s);
    } else if |segs| == 1 {
      SplitSingle(s);
      IndexOfFinds(s, Dot);
    } else {
      var rest := CutStepLeading(s, n);
      StripLeadingFollowsCut(rest, n - 1);
    }
  }

  /** `dotStringModifyLevel` with a negative level follows the backward walk on the segments. */
  lemma {:induction false} StripTrailingFollowsCut(s: string, n: nat)
    requires NoEmptySegment(Split(s))
    ensures StripTrailing(s, n) == Join(TrailingCut(Split(s), n))
    decreases n
  {
    var segs := Split(s);
    if n == 0 {
      JoinSplit(s);
    } else if |segs| == 1 {
      SplitSingle(s);
      LastIndexOfFinds(s, Dot);
    } else {
      var init := CutStepTrailing(s, n);
      StripTrailingFollowsCut(init, n - 1);
    }
  }

  /** `dotStringLevel` with a positive level follows the forward walk on the segments. */
  lemma {:induction false} LevelLeadingFollowsWalk(s: string, n: nat, last: string)
    requires NoEmptySegment(Split(s))
    ensures LevelLeading(s, n, last) == LeadingWalk(Split(s), n, last)
    decreases n
  {
    var segs := Split(s);
    if n == 0 {
    } else if |segs| == 1 {
      SplitSingle(s);
      IndexOfFinds(s, Dot);
    } else {
      var rest := WalkStepLeading(s, n, last);
      LevelLeadingFollowsWalk(rest, n - 1, segs[0]);
    }
  }

  /** `dotStringLevel` with a negative level follows the backward walk on the segments. */
  lemma {:induction false} LevelTrailingFollowsWalk(s: string, n: nat, last: string)
    requires NoEmptySegment(Split(s))
    ensures LevelTrailing(s, n, last) == TrailingWalk(Split(s), n, last)
    decreases n
  {
    var segs := Split(s);
    if n == 0 {
    } else if |segs| == 1 {
      SplitSingle(s);
      LastIndexOfFinds(s, Dot);
    } else {
      var init := WalkStepTrailing(s, n, last);
      LevelTrailingFollowsWalk(init, n - 1, segs[|segs| - 1]);
    }
  }

  /** A negative level walks backwards, any other level forwards. */
  lemma ModifyLevelPicksWalk(s: string, level: int)
    ensures level < 0 ==> DotStringModifyLevel(s, level) == StripTrailing(s, -level)
    ensures level >= 0 ==> DotStringModifyLevel(s, level) == StripLeading(s, level)
  {
  }

  /** On a path without empty segments, a positive level strips that many leading segments. */
  lemma ModifyLevelStripsLeading(s: string, n: nat)
    requires NoEmptySegment(Split(s))
    ensures DotStringModifyLevel(s, n) == if n < |Split(s)| then Join(Split(s)[n..]) else ""
  {
    ModifyLevelPicksWalk(s, n);
    StripLeadingFollowsCut(s, n);
    LeadingCutDrops(Split(s), n);
  }

  /** On a path without empty segments, a negative level strips that many trailing segments. */
  lemma ModifyLevelStripsTrailing(s: string, n: nat)
    requires NoEmptySegment(Split(s))
    ensures DotStringModifyLevel(s, -(n as int)) == if n < |Split(s)| then Join(Split(s)[..|Split(s)| - n]) else ""
  {
    ModifyLevelPicksWalk(s, -(n as int));
    StripTrailingFollowsCut(s, n);
    TrailingCutDrops(Split(s), n);
  }

  /** On a path without empty segments, level n > 0 names segment n (counting from one). */
  lemma LevelNamesLeadingSegment(s: string, n: nat)
    requires NoEmptySegment(Split(s)) && n > 0
    ensures DotStringLevel(s, n) == if n < |Split(s)| then Split(s)[n - 1] else ""
  {
    LevelLeadingFollowsWalk(s, n, s);
    LeadingWalkNames(Split(s), n, s);
  }

  /** On a path without empty segments, level -n names segment n counting from the end. */
  lemma LevelNamesTrailingSegment(s: string, n: nat)
    requires NoEmptySegment(Split(s)) && n > 0
    ensures DotStringLevel(s, -(n as int)) == if n < |Split(s)| then Split(s)[|Split(s)| - n] else ""
  {
    LevelTrailingFollowsWalk(s, n, s);
    TrailingWalkNames(Split(s), n, s);
  }

  /*** Substring search over a tree ***/

  /** A scalar as `strpos` sees it: null reads as the empty string. */
  function ScalarText(v: Value): string
  {
    if v.Str? then v.s else ""
  }

  /**
   `OptionsHelper::getParentStack($searchString, $stack)`: the matching part of
   the tree, or None for the source's `false` when nothing matches.
   */
  function GetParentStack(needle: string, stack: Assoc): (r: Option<Assoc>)
    ensures r.Some? ==> r.value != Nil
    ensures r.Some? ==> Keys(r.value) <= Keys(stack)
    decreases stack, 1
  {
    var kept := ParentEntries(needle, stack);
    if kept == Nil then None else Some(kept)
  }

  /** The `foreach` of `getParentStack`: the entries kept, in their original order. */
  function ParentEntries(needle: string, stack: Assoc): (r: Assoc)
    ensures Keys(r) <= Keys(stack)
    decreases stack, 0
  {
    match stack
    case Nil => Nil
    case Cons(k, v, rest) =>
      var tail := ParentEntries(needle, rest);
      if v.Arr? then
        if Contains(k, needle) then Cons(k, v, tail)
        else
          match GetParentStack(needle, v.a)
          case Some(sub) => Cons(k, Arr(sub), tail)
          case None => tail
      else if Contains(ScalarText(v), needle) then Cons(k, v, tail)
      else tail
  }

  /** Somewhere in the tree an array's key, or a scalar, contains the needle. */
  predicate AnyMatch(needle: string, a: Assoc)
  {
    match a
    case Nil => false
    case Cons(k, v, rest) =>
      (if v.Arr? then Contains(k, needle) || AnyMatch(needle, v.a) else Contains(ScalarText(v), needle))
      || AnyMatch(needle, rest)
  }

  /** What `getParentStack` keeps under one key, given what the tree holds there. */
  function KeptEntry(needle: string, k: string, entry: Option<Value>): Option<Value>
  {
    match entry
    case None => None
    case Some(v) =>
      if v.Arr? then
        if Contains(k, needle) then Some(v)
        else
          match GetParentStack(needle, v.a)
          case Some(sub) => Some(Arr(sub))
          case None => None
      else if Contains(ScalarText(v), needle) then Some(v) else None
  }

  /** `getParentStack` answers `false` exactly when nothing in the tree matches. */
  lemma {:induction false} ParentStackFalseIffNoMatch(needle: string, t: Assoc)
    ensures GetParentStack(needle, t) == None <==> !AnyMatch(needle, t)
  {
    match t
    case Nil =>
    case Cons(k, v, rest) =>
      ParentStackFalseIffNoMatch(needle, rest);
      if v.Arr? {
        ParentStackFalseIffNoMatch(needle, v.a);
      }
  }

  /**
   Key by key, the result of `getParentStack` keeps an array whole when its key
   matches, keeps it with only its matching descendants otherwise, and keeps a
   scalar when its text matches.
   */
  lemma {:induction false} ParentStackEntries(needle: string, t: Assoc, k: string)
    requires Unique(t)
    ensures var r := GetParentStack(needle, t);
            Get(if r.Some? then r.value else Nil, k) == KeptEntry(needle, k, Get(t, k))
  {
    match t
    case Nil =>
    case Cons(j, v, rest) =>
      ParentStackEntries(needle, rest, k);
      if j == k {
        assert k !in Keys(ParentEntries(needle, rest));
      }
  }
}
