/**
 PHP arrays as the option store uses them: ordered maps from string keys to
 values, where a value is `null`, a scalar (every scalar is kept as its string
 form) or a nested array. An array is an association list, so the order of
 insertion is kept; PHP never holds a key twice, which is the invariant `Wf`.
 */
module PhpArray {
  import opened Optional
  import opened Strings

  datatype Value = Null | Str(s: string) | Arr(a: Assoc)

  datatype Assoc = Nil | Cons(key: string, val: Value, rest: Assoc)

  /** The keys of the top level. */
  function Keys(a: Assoc): set<string>
  {
    match a
    case Nil => {}
    case Cons(k, _, rest) => {k} + Keys(rest)
  }

  /** `$a[$k]` when `array_key_exists($k, $a)`, else None. */
  function Get(a: Assoc, k: string): (r: Option<Value>)
    ensures r.Some? <==> k in Keys(a)
  {
    match a
    case Nil => None
    case Cons(j, v, rest) => if j == k then Some(v) else Get(rest, k)
  }

  /** `$a[$k] = $v`: overwrites in place when the key exists, appends it otherwise. */
  function Put(a: Assoc, k: string, v: Value): (r: Assoc)
    ensures Get(r, k) == Some(v)
    ensures forall j :: j != k ==> Get(r, j) == Get(a, j)
    ensures Keys(r) == Keys(a) + {k}
  {
    match a
    case Nil => Cons(k, v, Nil)
    case Cons(j, x, rest) => if j == k then Cons(k, v, rest) else Cons(j, x, Put(rest, k, v))
  }

  /** The entries of `a` followed by those of `b`. */
  function Concat(a: Assoc, b: Assoc): (r: Assoc)
    ensures Keys(r) == Keys(a) + Keys(b)
  {
    match a
    case Nil => b
    case Cons(k, v, rest) => Cons(k, v, Concat(rest, b))
  }

  /** No key occurs twice at the top level. */
  predicate Unique(a: Assoc)
  {
    match a
    case Nil => true
    case Cons(k, _, rest) => k !in Keys(rest) && Unique(rest)
  }

  /** No key occurs twice at any depth: every array a PHP program can hold. */
  predicate Wf(a: Assoc)
  {
    match a
    case Nil => true
    case Cons(k, v, rest) => k !in Keys(rest) && WfValue(v) && Wf(rest)
  }

  predicate WfValue(v: Value)
  {
    v.Arr? ==> Wf(v.a)
  }

  /** No key at any depth contains the path separator. */
  predicate DotFree(a: Assoc)
  {
    match a
    case Nil => true
    case Cons(k, v, rest) => Dot !in k && DotFreeValue(v) && DotFree(rest)
  }

  predicate DotFreeValue(v: Value)
  {
    v.Arr? ==> DotFree(v.a)
  }

  /** The shape of every tree the option store builds from dotted data. */
  predicate Normal(a: Assoc)
  {
    Wf(a) && DotFree(a)
  }

  predicate NormalValue(v: Value)
  {
    WfValue(v) && DotFreeValue(v)
  }

  /** No value at any depth is null or an empty array. */
  predicate Clean(a: Assoc)
  {
    match a
    case Nil => true
    case Cons(_, v, rest) => v != Null && v != Arr(Nil) && CleanValue(v) && Clean(rest)
  }

  predicate CleanValue(v: Value)
  {
    v.Arr? ==> Clean(v.a)
  }

  /** PHP truthiness of a value: null, "", "0" and the empty array are falsy. */
  predicate Truthy(v: Value)
  {
    match v
    case Null => false
    case Str(s) => s != "" && s != "0"
    case Arr(a) => a != Nil
  }

  /** A well-formed array has unique keys at its top level. */
  lemma WfUnique(a: Assoc)
    requires Wf(a)
    ensures Unique(a)
  {
  }

  /** What a well-formed array maps a key to is itself well-formed. */
  lemma {:induction false} GetWf(a: Assoc, k: string)
    requires Wf(a) && k in Keys(a)
    ensures WfValue(Get(a, k).value)
  {
    match a
    case Cons(j, _, rest) =>
      if j != k {
        GetWf(rest, k);
      }
  }

  /** What a dot-free array maps a key to is itself dot-free. */
  lemma {:induction false} GetDotFree(a: Assoc, k: string)
    requires DotFree(a) && k in Keys(a)
    ensures DotFreeValue(Get(a, k).value)
  {
    match a
    case Cons(j, _, rest) =>
      if j != k {
        GetDotFree(rest, k);
      }
  }

  /** Writing a well-formed value into a well-formed array keeps it well-formed. */
  lemma {:induction false} PutWf(a: Assoc, k: string, v: Value)
    requires Wf(a) && WfValue(v)
    ensures Wf(Put(a, k, v))
  {
    match a
    case Nil =>
    case Cons(j, x, rest) =>
      if j != k {
        PutWf(rest, k, v);
      }
  }

  /** Writing a dot-free value under a dot-free key keeps an array dot-free. */
  lemma {:induction false} PutDotFree(a: Assoc, k: string, v: Value)
    requires DotFree(a) && Dot !in k && DotFreeValue(v)
    ensures DotFree(Put(a, k, v))
  {
    match a
    case Nil =>
    case Cons(j, x, rest) =>
      if j != k {
        PutDotFree(rest, k, v);
      }
  }

  /** Writing a new key appends it at the end. */
  lemma {:induction false} PutAbsentAppends(a: Assoc, k: string, v: Value)
    requires k !in Keys(a)
    ensures Put(a, k, v) == Concat(a, Cons(k, v, Nil))
  {
    match a
    case Nil =>
    case Cons(j, x, rest) => PutAbsentAppends(rest, k, v);
  }

  lemma {:induction false} ConcatNil(a: Assoc)
    ensures Concat(a, Nil) == a
  {
    match a
    case Nil =>
    case Cons(_, _, rest) => ConcatNil(rest);
  }

  lemma {:induction false} ConcatAssoc(a: Assoc, b: Assoc, c: Assoc)
    ensures Concat(Concat(a, b), c) == Concat(a, Concat(b, c))
  {
    match a
    case Nil =>
    case Cons(_, _, rest) => ConcatAssoc(rest, b, c);
  }

  /** Two arrays with unique, disjoint keys concatenate to one with unique keys. */
  lemma {:induction false} ConcatUnique(a: Assoc, b: Assoc)
    requires Unique(a) && Unique(b) && Keys(a) !! Keys(b)
    ensures Unique(Concat(a, b))
  {
    match a
    case Nil =>
    case Cons(_, _, rest) => ConcatUnique(rest, b);
  }
}
