/** The few JavaScript built-ins the harvester relies on: optional values with
    the `??` operator (the `?.` of an optional chain is a `match` on `Option`
    where it is used), `String.prototype.endsWith` and `Array.prototype.map`.
    `StartsWith` is the prefix test the model's own statements use. */
module Prelude {

  /** An optional property of a parsed record: absent or present. */
  datatype Option<+T> = None | Some(value: T)

  /** `o ?? default`: the present value, otherwise the default. */
  function Coalesce<T>(o: Option<T>, default: T): (r: T)
    ensures o.Some? ==> r == o.value
    ensures o.None? ==> r == default
  {
    match o
    case Some(v) => v
    case None => default
  }

  /** `s` begins with `prefix`. */
  predicate StartsWith(s: string, prefix: string) {
    |prefix| <= |s| && s[..|prefix|] == prefix
  }

  /** `s.endsWith(suffix)`. */
  predicate EndsWith(s: string, suffix: string) {
    |suffix| <= |s| && s[|s| - |suffix|..] == suffix
  }

  /** `s.map(f)`, element by element and in order. */
  function Map<A, B>(f: A -> B, s: seq<A>): (r: seq<B>)
    ensures |r| == |s|
    ensures forall i :: 0 <= i < |s| ==> r[i] == f(s[i])
  {
    if s == [] then [] else [f(s[0])] + Map(f, s[1..])
  }

  /** Every string ends with whatever was appended last. */
  lemma EndsWithAppended(prefix: string, suffix: string)
    ensures EndsWith(prefix + suffix, suffix)
  {
    assert (prefix + suffix)[|prefix|..] == suffix;
  }

  /** A string that ends with `suffix` is some prefix followed by `suffix`. */
  lemma EndsWithSplits(s: string, suffix: string)
    requires EndsWith(s, suffix)
    ensures s == s[..|s| - |suffix|] + suffix
  {
    assert s == s[..|s| - |suffix|] + s[|s| - |suffix|..];
  }

  /** `endsWith` holds exactly of the strings that are some prefix followed
      by the suffix. */
  lemma EndsWithIff(s: string, suffix: string)
    ensures EndsWith(s, suffix) <==> exists pre :: s == pre + suffix
  {
    if EndsWith(s, suffix) {
      EndsWithSplits(s, suffix);
    } else {
      forall pre | s == pre + suffix
        ensures false
      {
        EndsWithAppended(pre, suffix);
      }
    }
  }

  /** Two suffixes of one string: the shorter is a suffix of the longer. */
  lemma SuffixesNest(s: string, a: string, b: string)
    requires EndsWith(s, a) && EndsWith(s, b) && |a| <= |b|
    ensures EndsWith(b, a)
  {
    var d := |b| - |a|;
    forall i | 0 <= i < |a|
      ensures b[d + i] == a[i]
    {
      assert b[d + i] == s[|s| - |b| + d + i];
      assert a[i] == s[|s| - |a| + i];
    }
    assert b[|b| - |a|..] == a;
  }
}
