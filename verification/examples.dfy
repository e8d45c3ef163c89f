/**
 The worked examples of the doc comments and the unit test, each stated on
 the model and proved.
 */
module Examples {
  import opened Optional
  import opened Strings
  import opened PhpArray
  import opened ArrayHelper
  import opened OptionsHelper
  import S = OptionsStore

  /** `explode('.', 'a.b.c')`. */
  lemma SplitABC()
    ensures Split("a.b.c") == ["a", "b", "c"]
  {
    assert Join(["a", "b", "c"]) == "a.b.c";
    SplitJoin(["a", "b", "c"]);
  }

  /** `dotStringToArray('a.b.c', 'abc-value')` is `array('a' => array('b' => array('c' => 'abc-value')))`. */
  lemma DotStringToArrayExample()
    ensures DotStringToArray("a.b.c", Str("abc-value"))
         == Cons("a", Arr(Cons("b", Arr(Cons("c", Str("abc-value"), Nil)), Nil)), Nil)
  {
    SplitABC();
    DotStringToArrayIsChain("a.b.c", Str("abc-value"));
    assert ["a", "b", "c"][1..] == ["b", "c"];
    assert ["b", "c"][1..] == ["c"];
  }

  /** A dot-free key gives a one-entry array. */
  lemma DotStringToArrayPlainKey(k: string, v: string)
    requires Dot !in k
    ensures DotStringToArray(k, Str(v)) == Cons(k, Str(v), Nil)
  {
  }

  /** The two cases of the unit test of `arrayToDotString`. */
  lemma ArrayToDotStringTests()
    ensures ArrayToDotString(Arr(Cons("b", Arr(Cons("ba", Str("ba-value"), Nil)), Nil))) == "b.ba"
    ensures ArrayToDotString(Arr(Cons("a.ab.abc", Arr(Cons("abcd", Str("abcd-value"), Nil)), Nil))) == "a.ab.abc.abcd"
  {
    assert FirstKeys(Arr(Cons("b", Arr(Cons("ba", Str("ba-value"), Nil)), Nil))) == ["b", "ba"];
    assert FirstKeys(Arr(Cons("a.ab.abc", Arr(Cons("abcd", Str("abcd-value"), Nil)), Nil))) == ["a.ab.abc", "abcd"];
  }

  /** Two dot-free segments joined by a dot explode back into the two. */
  lemma SplitPair(p: string, q: string, s: string)
    requires Dot !in p && Dot !in q && s == p + [Dot] + q
    ensures Split(s) == [p, q]
  {
    assert Join([p, q]) == s;
    SplitJoin([p, q]);
  }

  /** The nested entry of the doc example: `array('b.c' => 'abc-value')` expands to `b => c => abc-value`. */
  lemma InnerExample()
    ensures DotDataToArray(Cons("b.c", Str("abc-value"), Nil)) == Cons("b", Arr(Cons("c", Str("abc-value"), Nil)), Nil)
  {
    SplitPair("b", "c", "b.c");
    var bc := Cons("b", Arr(Cons("c", Str("abc-value"), Nil)), Nil);
    assert Fragment("b.c", Str("abc-value")) == bc;
    assert Merge(Nil, bc) == bc;
  }

  lemma ExampleStepA(bc: Assoc)
    requires bc == Cons("b", Arr(Cons("c", Str("abc-value"), Nil)), Nil)
    ensures Merge(Nil, Fragment("a", NormValue(Arr(Cons("b.c", Str("abc-value"), Nil))))) == Cons("a", Arr(bc), Nil)
  {
    InnerExample();
    assert Fragment("a", Arr(bc)) == Cons("a", Arr(bc), Nil);
  }

  lemma ExampleStepXY(acc: Assoc, bc: Assoc)
    requires acc == Cons("a", Arr(bc), Nil)
    ensures Merge(acc, Fragment("x.y", NormValue(Str("xy-value"))))
         == Cons("a", Arr(bc), Cons("x", Arr(Cons("y", Str("xy-value"), Nil)), Nil))
  {
    SplitPair("x", "y", "x.y");
    var w := Arr(Cons("y", Str("xy-value"), Nil));
    assert Fragment("x.y", Str("xy-value")) == Cons("x", w, Nil);
    assert "a"[0] != "x"[0];
    assert Get(acc, "x") == None;
    assert Put(acc, "x", w) == Cons("a", Arr(bc), Cons("x", w, Nil));
  }

  lemma ExampleStepXZ(acc: Assoc, bc: Assoc)
    requires acc == Cons("a", Arr(bc), Cons("x", Arr(Cons("y", Str("xy-value"), Nil)), Nil))
    ensures Merge(acc, Fragment("x.z", NormValue(Str("xz-value"))))
         == Cons("a", Arr(bc), Cons("x", Arr(Cons("y", Str("xy-value"), Cons("z", Str("xz-value"), Nil))), Nil))
  {
    SplitPair("x", "z", "x.z");
    var xz := Cons("x", Arr(Cons("z", Str("xz-value"), Nil)), Nil);
    assert Fragment("x.z", Str("xz-value")) == xz;
    assert "a"[0] != "x"[0] && "y"[0] != "z"[0];
    assert Get(acc, "x") == Some(Arr(Cons("y", Str("xy-value"), Nil)));
    var yz := Cons("y", Str("xy-value"), Cons("z", Str("xz-value"), Nil));
    assert Get(Cons("y", Str("xy-value"), Nil), "z") == None;
    assert Merge(Cons("y", Str("xy-value"), Nil), Cons("z", Str("xz-value"), Nil)) == yz;
    assert MergeInto(Get(acc, "x"), Arr(Cons("z", Str("xz-value"), Nil))) == Arr(yz);
    assert Put(acc, "x", Arr(yz)) == Cons("a", Arr(bc), Cons("x", Arr(yz), Nil));
  }

  /** The doc example of `dotDataToArray`: siblings sharing a dotted prefix are merged. */
  lemma DotDataToArrayExample()
    ensures DotDataToArray(Cons("a", Arr(Cons("b.c", Str("abc-value"), Nil)),
                           Cons("x.y", Str("xy-value"),
                           Cons("x.z", Str("xz-value"), Nil))))
         == Cons("a", Arr(Cons("b", Arr(Cons("c", Str("abc-value"), Nil)), Nil)),
            Cons("x", Arr(Cons("y", Str("xy-value"), Cons("z", Str("xz-value"), Nil))), Nil))
  {
    var bc := Cons("b", Arr(Cons("c", Str("abc-value"), Nil)), Nil);
    var acc1 := Cons("a", Arr(bc), Nil);
    var acc2 := Cons("a", Arr(bc), Cons("x", Arr(Cons("y", Str("xy-value"), Nil)), Nil));
    ExampleStepA(bc);
    ExampleStepXY(acc1, bc);
    ExampleStepXZ(acc2, bc);
  }

  /*** The store examples ***/

  /** `getOption('a.b')` on the doc-comment tree returns `'ab-value'`; a missing key gives the fallback. */
  lemma GetOptionExample(fallback: Value)
    ensures S.GetOption(S.Store(Cons("a", Arr(Cons("b", Str("ab-value"), Nil)), Cons("x", Str("x-value"), Nil))),
                        "a.b", fallback) == Str("ab-value")
    ensures S.GetOption(S.Store(Cons("a", Arr(Cons("b", Str("ab-value"), Nil)), Cons("x", Str("x-value"), Nil))),
                        "x.y", fallback) == fallback
  {
    SplitPair("a", "b", "a.b");
    SplitPair("x", "y", "x.y");
    assert "a"[0] != "x"[0];
    assert ["a", "b"][1..] == ["b"] && ["b"][1..] == [];
    assert ["x", "y"][1..] == ["y"];
  }

  /** `updateOption('a', array('d' => 'ad-value'))` keeps the siblings of `d`. */
  lemma UpdateOptionExample()
    ensures S.UpdateOption(S.Store(Cons("a", Arr(Cons("b", Str("ab-value"), Cons("c", Str("ac-value"), Nil))),
                                   Cons("x", Str("x-value"), Nil))),
                           "a", Arr(Cons("d", Str("ad-value"), Nil)))
         == S.Store(Cons("a", Arr(Cons("b", Str("ab-value"), Cons("c", Str("ac-value"), Cons("d", Str("ad-value"), Nil)))),
                    Cons("x", Str("x-value"), Nil)))
  {
    var d := Cons("d", Str("ad-value"), Nil);
    var bc := Cons("b", Str("ab-value"), Cons("c", Str("ac-value"), Nil));
    var st := S.Store(Cons("a", Arr(bc), Cons("x", Str("x-value"), Nil)));
    NormalFixed(d);
    SplitNoDot("a");
    S.UpdateOptionMergesChain(st, "a", Arr(d));
    assert Chain(["a"], Arr(d)) == Cons("a", Arr(d), Nil);
    assert "b"[0] != "d"[0] && "c"[0] != "d"[0];
    assert Merge(bc, d) == Cons("b", Str("ab-value"), Cons("c", Str("ac-value"), d));
  }

  /** `unsetOption('a.b')` on `a => (b => …), x => …` also removes the emptied `a`. */
  lemma UnsetOptionExample()
    ensures S.UnsetOption(S.Store(Cons("a", Arr(Cons("b", Str("ab-value"), Nil)), Cons("x", Str("x-value"), Nil))), "a.b")
         == S.Store(Cons("x", Str("x-value"), Nil))
  {
    var st := S.Store(Cons("a", Arr(Cons("b", Str("ab-value"), Nil)), Cons("x", Str("x-value"), Nil)));
    SplitPair("a", "b", "a.b");
    S.UnsetOptionMergesChain(st, "a.b");
    var chain := Cons("a", Arr(Cons("b", Null, Nil)), Nil);
    assert Chain(["a", "b"], Null) == chain;
    assert Merge(Cons("b", Str("ab-value"), Nil), Cons("b", Null, Nil)) == Cons("b", Null, Nil);
    assert Merge(st.options, chain) == Cons("a", Arr(Cons("b", Null, Nil)), Cons("x", Str("x-value"), Nil));
  }

  /**
   `unsetOption('b')` on the same tree changes nothing: `'b'` names no top-level
   key, and the nested `b` under `a` is only reached by `'a.b'`.
   */
  lemma UnsetOptionTopLevelOnly()
    ensures S.UnsetOption(S.Store(Cons("a", Arr(Cons("b", Str("ab-value"), Nil)), Cons("x", Str("x-value"), Nil))), "b")
         == S.Store(Cons("a", Arr(Cons("b", Str("ab-value"), Nil)), Cons("x", Str("x-value"), Nil)))
  {
    SplitNoDot("b");
    assert "a"[0] != "b"[0] && "x"[0] != "b"[0];
    S.UnsetOptionAbsent(S.Store(Cons("a", Arr(Cons("b", Str("ab-value"), Nil)), Cons("x", Str("x-value"), Nil))), "b");
  }

  /**
   `setOption('a', array('d' => 'ad-value'))` replaces what `a` held. The
   unset removes `a` and the update appends it again, so `a` now comes after
   `x`; the doc comment lists it first, which PHP's `==` on arrays does not
   distinguish.
   */
  lemma SetOptionExample()
    ensures S.SetOption(S.Store(Cons("a", Arr(Cons("b", Str("ab-value"), Cons("c", Str("ac-value"), Nil))),
                                Cons("x", Str("x-value"), Nil))),
                        "a", Arr(Cons("d", Str("ad-value"), Nil)))
         == S.Store(Cons("x", Str("x-value"), Cons("a", Arr(Cons("d", Str("ad-value"), Nil)), Nil)))
  {
    var d := Cons("d", Str("ad-value"), Nil);
    var bc := Cons("b", Str("ab-value"), Cons("c", Str("ac-value"), Nil));
    var st := S.Store(Cons("a", Arr(bc), Cons("x", Str("x-value"), Nil)));
    SplitNoDot("a");
    S.UnsetOptionMergesChain(st, "a");
    assert Chain(["a"], Null) == Cons("a", Null, Nil);
    var cleared := S.Store(Cons("x", Str("x-value"), Nil));
    assert S.UnsetOption(st, "a") == cleared;
    NormalFixed(d);
    S.UpdateOptionMergesChain(cleared, "a", Arr(d));
    assert Chain(["a"], Arr(d)) == Cons("a", Arr(d), Nil);
    assert "a"[0] != "x"[0];
  }

  /*** The segment helpers ***/

  /** `'a.b.c'` has three segments, none of them empty. */
  lemma ABCSegments()
    ensures Split("a.b.c") == ["a", "b", "c"] && NoEmptySegment(Split("a.b.c"))
  {
    SplitABC();
  }

  /** `dotStringModifyLevel('a.b.c', 1)` is `'b.c'` and `dotStringLevel('a.b.c', 1)` is `'a'`. */
  lemma LevelOneExample()
    ensures DotStringModifyLevel("a.b.c", 1) == "b.c" && DotStringLevel("a.b.c", 1) == "a"
  {
    ABCSegments();
    ModifyLevelStripsLeading("a.b.c", 1);
    assert ["a", "b", "c"][1..] == ["b", "c"];
    LevelNamesLeadingSegment("a.b.c", 1);
  }

  /** `dotStringModifyLevel('a.b.c', -1)` is `'a.b'` and `dotStringLevel('a.b.c', -1)` is `'c'`. */
  lemma LevelMinusOneExample()
    ensures DotStringModifyLevel("a.b.c", -1) == "a.b" && DotStringLevel("a.b.c", -1) == "c"
  {
    ABCSegments();
    ModifyLevelStripsTrailing("a.b.c", 1);
    assert ["a", "b", "c"][..2] == ["a", "b"];
    LevelNamesTrailingSegment("a.b.c", 1);
  }

  /** Level zero returns the string; three steps on a three-segment path run out of dots. */
  lemma LevelBoundsExample()
    ensures DotStringModifyLevel("a.b.c", 0) == "a.b.c" && DotStringLevel("a.b.c", 0) == "a.b.c"
    ensures DotStringModifyLevel("a.b.c", 3) == "" && DotStringLevel("a.b.c", -3) == ""
  {
    ABCSegments();
    ModifyLevelStripsLeading("a.b.c", 3);
    LevelNamesTrailingSegment("a.b.c", 3);
  }

  /** A dot at offset 0 stops both helpers with `''`. */
  lemma LeadingDotStops(level: int)
    requires level != 0
    ensures DotStringModifyLevel(".a", level) == "" && DotStringLevel(".a", level) == ""
  {
    assert IndexOf(".a", Dot) == Some(0);
    assert LastIndexOf(".a", Dot) == Some(0);
  }

  /*** The substring search ***/

  lemma NotContainsFoo()
    ensures !Contains("bar", "foo") && !Contains("ab", "foo")
  {
    assert !Contains("", "foo");
    assert "r"[1..] == "" && "b"[1..] == "";
    assert !Contains("r", "foo") && !Contains("b", "foo");
    assert "ar"[1..] == "r" && "ab"[1..] == "b";
    assert !Contains("ar", "foo");
    assert "bar"[1..] == "ar";
    assert "foo"[0] != "bar"[0];
    assert !("foo" <= "bar");
  }

  /**
   `getParentStack('foo', …)` keeps the branch that leads to the match and
   drops the rest; a needle found nowhere gives `false`.
   */
  lemma ParentStackExample()
    ensures GetParentStack("foo", Cons("ab", Arr(Cons("b", Str("foo"), Cons("c", Str("bar"), Nil))), Cons("c", Str("bar"), Nil)))
         == Some(Cons("ab", Arr(Cons("b", Str("foo"), Nil)), Nil))
    ensures GetParentStack("foo", Cons("c", Str("bar"), Nil)) == None
  {
    NotContainsFoo();
    assert Contains("foo", "foo");
    assert ParentEntries("foo", Cons("c", Str("bar"), Nil)) == Nil;
    var inner := Cons("b", Str("foo"), Cons("c", Str("bar"), Nil));
    assert ParentEntries("foo", inner) == Cons("b", Str("foo"), Nil);
    assert GetParentStack("foo", inner) == Some(Cons("b", Str("foo"), Nil));
    assert ParentEntries("foo", Cons("ab", Arr(inner), Cons("c", Str("bar"), Nil)))
        == Cons("ab", Arr(Cons("b", Str("foo"), Nil)), Nil);
  }
}
