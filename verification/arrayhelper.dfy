/**
 The two array utilities the option store borrows from its `ArrayHelper`
 dependency, whose source is not part of this model. Both are defined here as
 stated assumptions:

 - `merge($base, $incoming)` is a deep merge: where both sides hold an array
   it recurses, otherwise the incoming value overwrites, null included; keys
   only in `$base` stay where they are and new keys are appended in order.
 - `filterRecursive($a, $callback)` filters bottom-up: children are filtered
   first, so the callback sees a parent after its own contents were filtered.
   The option store only ever passes the callback of `unsetOption`, which
   drops null and the empty array; `Prune` is the filter with that callback.
 */
module ArrayHelper {
  import opened Optional
  import opened Strings
  import opened PhpArray

  /** `ArrayHelper::merge($base, $incoming)`. */
  function Merge(base: Assoc, incoming: Assoc): (r: Assoc)
    ensures Keys(r) == Keys(base) + Keys(incoming)
    decreases incoming
  {
    match incoming
    case Nil => base
    case Cons(k, w, rest) => Merge(Put(base, k, MergeInto(Get(base, k), w)), rest)
  }

  /** The value one incoming entry leaves under its key, given what was there. */
  function MergeInto(existing: Option<Value>, w: Value): (r: Value)
    decreases w
  {
    if existing.Some? && existing.value.Arr? && w.Arr? then Arr(Merge(existing.value.a, w.a))
    else w
  }

  /** The callback `unsetOption` hands to `filterRecursive`: keep unless null or an empty array. */
  predicate Survives(v: Value)
  {
    !(v == Null || v == Arr(Nil))
  }

  /** `ArrayHelper::filterRecursive($a, <unsetOption's callback>)`. */
  function Prune(a: Assoc): (r: Assoc)
    ensures Keys(r) <= Keys(a)
    ensures Clean(r)
  {
    match a
    case Nil => Nil
    case Cons(k, v, rest) =>
      var v' := PruneValue(v);
      if Survives(v') then Cons(k, v', Prune(rest)) else Prune(rest)
  }

  /** A value after its own contents were filtered. */
  function PruneValue(v: Value): (r: Value)
    ensures r.Arr? <==> v.Arr?
    ensures CleanValue(r)
  {
    if v.Arr? then Arr(Prune(v.a)) else v
  }

  /** Reading a key after a merge: the incoming entry, merged into what was there, else the old entry. */
  lemma {:induction false} GetMerge(base: Assoc, incoming: Assoc, k: string)
    requires Unique(incoming)
    ensures Get(Merge(base, incoming), k) ==
            match Get(incoming, k)
            case None => Get(base, k)
            case Some(w) => Some(MergeInto(Get(base, k), w))
    decreases incoming
  {
    match incoming
    case Nil =>
    case Cons(j, w, rest) =>
      GetMerge(Put(base, j, MergeInto(Get(base, j), w)), rest, k);
  }

  /** Merging two well-formed arrays gives a well-formed array. */
  lemma {:induction false} MergeWf(base: Assoc, incoming: Assoc)
    requires Wf(base) && Wf(incoming)
    ensures Wf(Merge(base, incoming))
    decreases incoming
  {
    match incoming
    case Nil =>
    case Cons(k, w, rest) =>
      if k in Keys(base) {
        GetWf(base, k);
      }
      MergeIntoWf(Get(base, k), w);
      PutWf(base, k, MergeInto(Get(base, k), w));
      MergeWf(Put(base, k, MergeInto(Get(base, k), w)), rest);
  }

  lemma {:induction false} MergeIntoWf(existing: Option<Value>, w: Value)
    requires existing.Some? ==> WfValue(existing.value)
    requires WfValue(w)
    ensures WfValue(MergeInto(existing, w))
    decreases w
  {
    if existing.Some? && existing.value.Arr? && w.Arr? {
      MergeWf(existing.value.a, w.a);
    }
  }

  /** Merging two dot-free arrays gives a dot-free array. */
  lemma {:induction false} MergeDotFree(base: Assoc, incoming: Assoc)
    requires DotFree(base) && DotFree(incoming)
    ensures DotFree(Merge(base, incoming))
    decreases incoming
  {
    match incoming
    case Nil =>
    case Cons(k, w, rest) =>
      if k in Keys(base) {
        GetDotFree(base, k);
      }
      MergeIntoDotFree(Get(base, k), w);
      PutDotFree(base, k, MergeInto(Get(base, k), w));
      MergeDotFree(Put(base, k, MergeInto(Get(base, k), w)), rest);
  }

  lemma {:induction false} MergeIntoDotFree(existing: Option<Value>, w: Value)
    requires existing.Some? ==> DotFreeValue(existing.value)
    requires DotFreeValue(w)
    ensures DotFreeValue(MergeInto(existing, w))
    decreases w
  {
    if existing.Some? && existing.value.Arr? && w.Arr? {
      MergeDotFree(existing.value.a, w.a);
    }
  }

  /** Merging keeps the shape the option store relies on. */
  lemma MergeNormal(base: Assoc, incoming: Assoc)
    requires Normal(base) && Normal(incoming)
    ensures Normal(Merge(base, incoming))
  {
    MergeWf(base, incoming);
    MergeDotFree(base, incoming);
  }

  /**
   Merging an array into itself changes nothing (the idempotence a deep merge
   promises); more generally, merging in entries that are already present.
   */
  lemma {:induction false} MergePresent(base: Assoc, incoming: Assoc)
    requires Wf(base) && Unique(incoming)
    requires forall k :: k in Keys(incoming) ==> Get(incoming, k) == Get(base, k)
    ensures Merge(base, incoming) == base
    decreases incoming
  {
    match incoming
    case Nil =>
    case Cons(k, w, rest) =>
      assert Get(incoming, k) == Some(w);
      GetWf(base, k);
      MergeIntoSame(w);
      PutSame(base, k, w);
      forall j | j in Keys(rest) ensures Get(rest, j) == Get(base, j) {
        assert Get(incoming, j) == Get(rest, j);
      }
      MergePresent(base, rest);
  }

  /** Merging a well-formed value into itself gives it back. */
  lemma {:induction false} MergeIntoSame(w: Value)
    requires WfValue(w)
    ensures MergeInto(Some(w), w) == w
    decreases w
  {
    if w.Arr? {
      WfUnique(w.a);
      MergePresent(w.a, w.a);
    }
  }

  /** Writing back what a unique-keyed array already holds changes nothing. */
  lemma {:induction false} PutSame(a: Assoc, k: string, v: Value)
    requires Get(a, k) == Some(v)
    ensures Put(a, k, v) == a
  {
    match a
    case Cons(j, x, rest) =>
      if j != k {
        PutSame(rest, k, v);
      }
  }

  lemma MergeSelf(a: Assoc)
    requires Wf(a)
    ensures Merge(a, a) == a
  {
    WfUnique(a);
    MergePresent(a, a);
  }

  /** Reading a key after pruning: the filtered value if it survives, else nothing. */
  lemma {:induction false} GetPrune(a: Assoc, k: string)
    requires Unique(a)
    ensures Get(Prune(a), k) ==
            match Get(a, k)
            case None => None
            case Some(v) => if Survives(PruneValue(v)) then Some(PruneValue(v)) else None
  {
    match a
    case Nil =>
    case Cons(j, v, rest) =>
      GetPrune(rest, k);
      if j == k {
        assert Get(rest, k).None?;
        assert k !in Keys(Prune(rest));
      }
  }

  /** Pruning keeps an array well-formed and dot-free. */
  lemma {:induction false} PruneNormal(a: Assoc)
    requires Normal(a)
    ensures Normal(Prune(a))
  {
    match a
    case Nil =>
    case Cons(k, v, rest) =>
      assert WfValue(v) && DotFreeValue(v);
      PruneNormal(rest);
      if v.Arr? {
        PruneNormal(v.a);
      }
  }

  /** A clean array is left as it is: pruning is idempotent. */
  lemma {:induction false} PruneClean(a: Assoc)
    requires Clean(a)
    ensures Prune(a) == a
  {
    match a
    case Nil =>
    case Cons(k, v, rest) =>
      PruneClean(rest);
      if v.Arr? {
        PruneClean(v.a);
      }
  }

  /** Filtering works entry by entry, so it distributes over concatenation. */
  lemma {:induction false} PruneConcat(a: Assoc, b: Assoc)
    ensures Prune(Concat(a, b)) == Concat(Prune(a), Prune(b))
  {
    match a
    case Nil =>
    case Cons(_, _, rest) => PruneConcat(rest, b);
  }

  lemma PruneIdempotent(a: Assoc)
    ensures Prune(Prune(a)) == Prune(a)
  {
    PruneClean(Prune(a));
  }
}
