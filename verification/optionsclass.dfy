/**
 The option store: one tree of options and the transitions `OptionsClass`
 offers on it. The static store of `OptionsHelper` runs the same algorithm on
 a process-wide array; both are this one state value.

 Every tree the store builds from dotted data is `Normal` (no dotted key and
 no repeated key at any depth), and every transition keeps it so: that is the
 invariant `Inv`.
 */
module OptionsStore {
  import opened Optional
  import opened Strings
  import opened PhpArray
  import opened ArrayHelper
  import H = OptionsHelper

  datatype Store = Store(options: Assoc)

  predicate Inv(st: Store)
  {
    Normal(st.options)
  }

  /** A fresh store: `protected $options = array()`. */
  function Empty(): Store
  {
    Store(Nil)
  }

  /** What `foreach` walks over: the entries of an array, nothing for anything else. */
  function Entries(v: Value): Assoc
  {
    if v.Arr? then v.a else Nil
  }

  /** `new OptionsClass($options)`: only truthy options are loaded. */
  function Create(options: Value): (r: Store)
    ensures Inv(r)
    ensures !Truthy(options) ==> r.options == Nil
  {
    if Truthy(options) then SetOptions(Empty(), Entries(options)) else Empty()
  }

  /** `setOptions($options)`: the tree becomes the expanded data, whatever it was. */
  function SetOptions(st: Store, data: Assoc): (r: Store)
    ensures Inv(r)
  {
    H.DotDataToArrayNormal(data);
    Store(H.DotDataToArray(data))
  }

  /** `updateOptions($options)`: the expanded data is deep-merged into the tree. */
  function UpdateOptions(st: Store, data: Assoc): (r: Store)
    ensures Keys(r.options) == Keys(st.options) + Keys(H.DotDataToArray(data))
  {
    Store(Merge(st.options, H.DotDataToArray(data)))
  }

  /** `getOptions()`: the tree as it is, which `setOptions` loads back into the same store. */
  function GetOptions(st: Store): (r: Assoc)
    ensures Inv(st) ==> SetOptions(Empty(), r) == st
  {
    if Inv(st) then
      H.NormalFixed(st.options);
      st.options
    else st.options
  }

  /**
   `updateOption($key, $value)`: merge the chain the dotted key spells out;
   only the key's first segment can be new at the top level.
   */
  function UpdateOption(st: Store, key: string, value: Value): (r: Store)
    ensures Keys(r.options) == Keys(st.options) + {Split(key)[0]}
  {
    H.DotStringToArrayIsChain(key, value);
    UpdateOptions(st, H.DotStringToArray(key, value))
  }

  /**
   `unsetOption($key)`: write null along the key, then sweep out nulls and
   empty arrays; afterwards neither is left at any depth, whatever the tree held.
   */
  function UnsetOption(st: Store, key: string): (r: Store)
    ensures Clean(r.options)
  {
    H.DotStringToArrayIsChain(key, Null);
    var written := UpdateOptions(st, H.DotStringToArray(key, Null));
    Store(Prune(written.options))
  }

  /**
   `setOption($key, $value)`: unset the key, then update it. The key's first
   segment is always present afterwards, and no other top-level key appears.
   */
  function SetOption(st: Store, key: string, value: Value): (r: Store)
    ensures Split(key)[0] in Keys(r.options)
    ensures Keys(r.options) <= Keys(st.options) + {Split(key)[0]}
  {
    H.DotStringToArrayIsChain(key, Null);
    UpdateOption(UnsetOption(st, key), key, value)
  }

  /** `getOption($key, $notFoundValue)`. */
  function GetOption(st: Store, key: string, notFound: Value): (r: Value)
    ensures r == notFound || r != Null
  {
    H.GetOption(st.options, key, notFound)
  }

  /*** The store invariant ***/

  /** The merged chain of `updateOption` is the chain `dotStringToArray` builds. */
  lemma UpdateOptionMergesChain(st: Store, key: string, value: Value)
    ensures UpdateOption(st, key, value).options == Merge(st.options, H.Chain(Split(key), H.NormValue(value)))
  {
    H.DotStringToArrayIsChain(key, value);
  }

  lemma UpdateOptionsKeepsInv(st: Store, data: Assoc)
    requires Inv(st)
    ensures Inv(UpdateOptions(st, data))
  {
    H.DotDataToArrayNormal(data);
    MergeNormal(st.options, H.DotDataToArray(data));
  }

  lemma UnsetOptionKeepsInv(st: Store, key: string)
    requires Inv(st)
    ensures Inv(UnsetOption(st, key))
  {
    UpdateOptionsKeepsInv(st, H.DotStringToArray(key, Null));
    PruneNormal(UpdateOptions(st, H.DotStringToArray(key, Null)).options);
  }

  /** Every transition keeps the store normal. */
  lemma TransitionsKeepInv(st: Store, key: string, value: Value, data: Assoc)
    requires Inv(st)
    ensures Inv(SetOptions(st, data))
    ensures Inv(UpdateOptions(st, data))
    ensures Inv(UpdateOption(st, key, value))
    ensures Inv(UnsetOption(st, key))
    ensures Inv(SetOption(st, key, value))
  {
    UpdateOptionsKeepsInv(st, data);
    UpdateOptionsKeepsInv(st, H.DotStringToArray(key, value));
    UnsetOptionKeepsInv(st, key);
    UpdateOptionsKeepsInv(UnsetOption(st, key), H.DotStringToArray(key, value));
  }

  /*** Loading and merging whole data ***/

  /**
   The constructor stores already nested data as given, and anything that is
   not an array leaves the store empty.
   */
  lemma CreateLoads(options: Value)
    ensures options.Arr? && Normal(options.a) ==> Create(options).options == options.a
    ensures !options.Arr? ==> Create(options).options == Nil
  {
    if options.Arr? && Normal(options.a) {
      H.NormalFixed(options.a);
    }
  }

  /** `setOptions` forgets the old tree, and loading already nested data stores it as given. */
  lemma SetOptionsReplaces(st: Store, other: Store, data: Assoc)
    ensures SetOptions(st, data) == SetOptions(other, data)
    ensures Normal(data) ==> GetOptions(SetOptions(st, data)) == data
  {
    if Normal(data) {
      H.NormalFixed(data);
    }
  }

  /** Loading the store's own tree again changes nothing. */
  lemma SetOptionsOwnTree(st: Store, data: Assoc)
    ensures SetOptions(st, GetOptions(SetOptions(st, data))) == SetOptions(st, data)
  {
    H.DotDataToArrayIdempotent(data);
  }

  /** Merging in the store's own tree changes nothing. */
  lemma UpdateOptionsOwnTree(st: Store)
    requires Inv(st)
    ensures UpdateOptions(st, GetOptions(st)) == st
  {
    H.NormalFixed(st.options);
    MergeSelf(st.options);
  }

  /** On a store, `updateOptions` reads key by key as a deep merge of the expanded data. */
  lemma UpdateOptionsReads(st: Store, data: Assoc, k: string)
    ensures Get(UpdateOptions(st, data).options, k) ==
            match Get(H.DotDataToArray(data), k)
            case None => Get(st.options, k)
            case Some(w) => Some(MergeInto(Get(st.options, k), w))
  {
    H.DotDataToArrayNormal(data);
    WfUnique(H.DotDataToArray(data));
    GetMerge(st.options, H.DotDataToArray(data), k);
  }

  /*** Writing one key ***/

  /**
   After `updateOption` with any non-null value, the key reads that value,
   normalised, unless an array lands on an array already there (then the two
   merge, as `UpdateOptionMerges` states).
   */
  lemma UpdateOptionSets(st: Store, key: string, value: Value, notFound: Value)
    requires value != Null
    requires value.Arr? ==> !H.GetPath(Arr(st.options), Split(key), Null).Arr?
    ensures GetOption(UpdateOption(st, key, value), key, notFound) == H.NormValue(value)
  {
    UpdateOptionMergesChain(st, key, value);
    H.MergeChainSets(st.options, Split(key), H.NormValue(value), notFound);
  }

  /** After `updateOption` with a non-null scalar, the key reads that scalar. */
  lemma UpdateOptionScalar(st: Store, key: string, s: string, notFound: Value)
    ensures GetOption(UpdateOption(st, key, Str(s)), key, notFound) == Str(s)
  {
    UpdateOptionMergesChain(st, key, Str(s));
    H.MergeChainSets(st.options, Split(key), Str(s), notFound);
  }

  /** `updateOption` with an array onto a key holding an array merges the two; siblings stay. */
  lemma UpdateOptionMerges(st: Store, key: string, a: Assoc, m: Assoc, notFound: Value)
    requires H.GetPath(Arr(st.options), Split(key), Null) == Arr(a)
    ensures GetOption(UpdateOption(st, key, Arr(m)), key, notFound) == Arr(Merge(a, H.DotDataToArray(m)))
  {
    UpdateOptionMergesChain(st, key, Arr(m));
    H.MergeChainMerges(st.options, Split(key), a, H.DotDataToArray(m), notFound);
  }

  /** `updateOption` leaves every path that parts ways with the key reading as before. */
  lemma UpdateOptionElsewhere(st: Store, key: string, value: Value, q: string, notFound: Value)
    requires Diverges(Split(q), Split(key))
    ensures GetOption(UpdateOption(st, key, value), q, notFound) == GetOption(st, q, notFound)
  {
    UpdateOptionMergesChain(st, key, value);
    H.MergeChainElsewhere(st.options, Split(key), H.NormValue(value), Split(q), notFound);
  }

  /*** Removing one key ***/

  /** The tree `unsetOption` merges in is the chain ending in null. */
  lemma UnsetOptionMergesChain(st: Store, key: string)
    ensures UnsetOption(st, key).options == Prune(Merge(st.options, H.Chain(Split(key), Null)))
  {
    H.DotStringToArrayIsChain(key, Null);
  }

  /** After `unsetOption($key)`, reading the key gives the fallback. */
  lemma UnsetOptionReadsFallback(st: Store, key: string, fallback: Value)
    requires Inv(st)
    ensures GetOption(UnsetOption(st, key), key, fallback) == fallback
  {
    UnsetOptionMergesChain(st, key);
    H.UnsetPathReadsNotFound(st.options, Split(key), fallback);
  }

  /**
   `unsetOption` leaves every scalar reachable by a path that parts ways with
   the key where it was.
   */
  lemma UnsetOptionElsewhere(st: Store, key: string, q: string, s: string, notFound: Value)
    requires Inv(st)
    requires Diverges(Split(q), Split(key))
    requires GetOption(st, q, Null) == Str(s)
    ensures GetOption(UnsetOption(st, key), q, notFound) == Str(s)
  {
    var segs := Split(key);
    var chain := H.Chain(segs, Null);
    UnsetOptionMergesChain(st, key);
    H.MergeChainElsewhere(st.options, segs, Null, Split(q), Null);
    H.ChainWf(segs, Null);
    MergeWf(st.options, chain);
    H.GetPathPrune(Merge(st.options, chain), Split(q), s, notFound);
  }

  /** `unsetOption` never adds a top-level key: a new first segment is swept out with its null chain. */
  lemma UnsetOptionAddsNoKey(st: Store, key: string)
    requires Inv(st)
    ensures Keys(UnsetOption(st, key).options) <= Keys(st.options)
  {
    var segs := Split(key);
    var k := segs[0];
    var chain := H.Chain(segs, Null);
    var m := Merge(st.options, chain);
    UnsetOptionMergesChain(st, key);
    if k !in Keys(st.options) {
      H.ChainWf(segs, Null);
      MergeWf(st.options, chain);
      WfUnique(m);
      GetMerge(st.options, chain, k);
      GetPrune(m, k);
      if |segs| > 1 {
        H.PruneNullChain(segs[1..]);
      }
    }
  }

  /** Unsetting a key whose first segment is not in a clean tree changes nothing. */
  lemma UnsetOptionAbsent(st: Store, key: string)
    requires Clean(st.options)
    requires Split(key)[0] !in Keys(st.options)
    ensures UnsetOption(st, key) == st
  {
    var segs := Split(key);
    var chain := H.Chain(segs, Null);
    UnsetOptionMergesChain(st, key);
    assert chain == Cons(segs[0], chain.val, Nil);
    PutAbsentAppends(st.options, segs[0], chain.val);
    assert Merge(st.options, chain) == Concat(st.options, chain);
    PruneConcat(st.options, chain);
    PruneClean(st.options);
    H.PruneNullChain(segs);
    ConcatNil(st.options);
  }

  /**
   Unsetting a nested key below a top-level scalar removes the scalar: the
   merge replaces it by the null chain, and the sweep then removes the chain.
   */
  lemma UnsetOptionThroughScalar(st: Store, key: string, s: string)
    requires Inv(st)
    requires |Split(key)| >= 2 && Get(st.options, Split(key)[0]) == Some(Str(s))
    ensures Split(key)[0] !in Keys(UnsetOption(st, key).options)
  {
    var segs := Split(key);
    var k := segs[0];
    var chain := H.Chain(segs, Null);
    var tail := H.Chain(segs[1..], Null);
    UnsetOptionMergesChain(st, key);
    H.ChainWf(segs, Null);
    MergeWf(st.options, chain);
    WfUnique(Merge(st.options, chain));
    GetMerge(st.options, chain, k);
    assert Get(chain, k) == Some(Arr(tail));
    GetPrune(Merge(st.options, chain), k);
    H.PruneNullChain(segs[1..]);
  }

  /*** Replacing one key ***/

  /** After `setOption` with any non-null value, the key reads that value, normalised: it is replaced, not merged. */
  lemma SetOptionReplaces(st: Store, key: string, value: Value, notFound: Value)
    requires Inv(st) && value != Null
    ensures GetOption(SetOption(st, key, value), key, notFound) == H.NormValue(value)
  {
    var cleared := UnsetOption(st, key);
    UnsetOptionReadsFallback(st, key, Null);
    UpdateOptionMergesChain(cleared, key, value);
    H.MergeChainSets(cleared.options, Split(key), H.NormValue(value), notFound);
  }

  /** After `setOption` with a non-null scalar, the key reads that scalar. */
  lemma SetOptionScalar(st: Store, key: string, s: string, notFound: Value)
    ensures GetOption(SetOption(st, key, Str(s)), key, notFound) == Str(s)
  {
    UpdateOptionScalar(UnsetOption(st, key), key, s, notFound);
  }

  /** `setOption` leaves every scalar reachable by a path that parts ways with the key where it was. */
  lemma SetOptionElsewhere(st: Store, key: string, value: Value, q: string, s: string, notFound: Value)
    requires Inv(st)
    requires Diverges(Split(q), Split(key))
    requires GetOption(st, q, Null) == Str(s)
    ensures GetOption(SetOption(st, key, value), q, notFound) == Str(s)
  {
    UnsetOptionElsewhere(st, key, q, s, notFound);
    UpdateOptionElsewhere(UnsetOption(st, key), key, value, q, notFound);
  }
}
