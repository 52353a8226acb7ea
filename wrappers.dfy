/** Small value types shared by the rest of the model. */
module Wrappers {

  /** A value or its absence (Kotlin's nullable `T?`). */
  datatype Option<+T> = None | Some(value: T) {
    function GetOr(default: T): T {
      match this
      case Some(v) => v
      case None => default
    }
  }

  /** What a call into code outside the model did: it returned a value, or it threw. */
  datatype Outcome<+T> = Returned(value: T) | Threw
}

/** Prefix and suffix tests on strings, as Kotlin's `startsWith` and `endsWith`. */
module Strings {

  predicate StartsWith(s: string, prefix: string) {
    |prefix| <= |s| && s[..|prefix|] == prefix
  }

  predicate EndsWith(s: string, suffix: string) {
    |suffix| <= |s| && s[|s| - |suffix|..] == suffix
  }

  /**
   * The last n elements of a concatenation come from its second part. Stated once,
   * generically, so that the trace lemmas do not make the solver rediscover it on
   * long event sequences.
   */
  lemma TailOfAppend<T>(a: seq<T>, b: seq<T>, n: nat)
    requires n <= |b|
    ensures (a + b)[|a + b| - n..] == b[|b| - n..]
  {
  }

  /** A non-empty suffix: the last characters agree and the rest is a suffix of the rest. */
  lemma EndsWithLast(s: string, w: string)
    requires EndsWith(s, w) && w != []
    ensures s != [] && s[|s| - 1] == w[|w| - 1] && EndsWith(s[..|s| - 1], w[..|w| - 1])
  {
    assert s[|s| - |w|..][|w| - 1] == s[|s| - 1];
    assert s[..|s| - 1][|s| - |w|..] == s[|s| - |w|..][..|w| - 1];
  }

  lemma EndsWithSnoc(s: string, w: string, c: char)
    ensures EndsWith(s + [c], w + [c]) <==> EndsWith(s, w)
  {
    if |w| <= |s| {
      var tail := s[|s| - |w|..];
      assert (s + [c])[|s + [c]| - |w + [c]|..] == tail + [c];
      assert (tail + [c])[..|w|] == tail && (w + [c])[..|w|] == w;
    }
  }
}
