/**
 * The module id of a staged KPM file: its name percent-decoded, then the text between
 * the last `/` and a trailing `.kpm`.
 */
module ModuleId {
  import opened Wrappers
  import opened Strings
  import FormUrlCodec

  const KpmSuffix: string := ".kpm"

  /** The trailing run of t that holds no `/`. */
  function AfterLastSlash(t: string): (r: string)
    ensures |r| <= |t| && r == t[|t| - |r|..]
    ensures '/' !in r
    ensures |r| < |t| ==> t[|t| - |r| - 1] == '/'
  {
    if t == [] then []
    else if t[|t| - 1] == '/' then []
    else
      var r' := AfterLastSlash(t[..|t| - 1]);
      assert t[..|t| - 1][|t| - 1 - |r'|..] + [t[|t| - 1]] == t[|t| - |r'| - 1..];
      r' + [t[|t| - 1]]
  }

  /**
   * The text between the last `/` and a trailing `.kpm`, or None when the name does
   * not end in `.kpm`.
   */
  function ModuleIdOf(name: string): (r: Option<string>)
    ensures r.Some? <==> EndsWith(name, KpmSuffix)
    ensures r.Some? ==> '/' !in r.value && EndsWith(name, r.value + KpmSuffix)
    ensures r.Some? ==> |r.value| + 4 == |name| || name[|name| - |r.value| - 5] == '/'
  {
    if EndsWith(name, KpmSuffix) then
      var id := AfterLastSlash(name[..|name| - 4]);
      assert name[|name| - |id| - 4..] == id + KpmSuffix by {
        assert name == name[..|name| - 4] + KpmSuffix;
      }
      Some(id)
    else None
  }

  /** Whatever the directory part, a `/`-free name before `.kpm` is the id. */
  lemma IdAfterLastSlash(dir: string, id: string)
    requires '/' !in id
    ensures ModuleIdOf(dir + "/" + id + KpmSuffix) == Some(id)
  {
    var name := dir + "/" + id + KpmSuffix;
    var n := |name|;
    assert name[n - 4..] == KpmSuffix;
    assert name[n - 4 - |id|..n - 4] == id;
    assert name[n - 5 - |id|] == '/';
    var r := ModuleIdOf(name).value;
    assert name[n - 4 - |r|..n - 4] == r;
  }

  /**
   * `extractModuleId`: decode the staged file name, then take the id. None when the
   * decoder throws or the decoded name has no `.kpm` suffix.
   */
  function ExtractModuleId(fileName: seq<FormUrlCodec.Byte>): (r: Option<string>)
    ensures r.None? <==> FormUrlCodec.Decode(fileName).None? || !EndsWith(FormUrlCodec.Decode(fileName).value, KpmSuffix)
    ensures r.Some? ==> '/' !in r.value
  {
    match FormUrlCodec.Decode(fileName)
    case None => None
    case Some(decoded) => ModuleIdOf(decoded)
  }
}

/**
 * The regular expression `([^/]*?)\.kpm$` searched for with Kotlin's `Regex.find`, as a
 * backtracking matcher: start positions are tried left to right, and at each the lazy
 * group first tries to finish the match and only then takes one more non-`/` character.
 */
module KpmPattern {
  import opened Wrappers
  import opened Strings
  import opened ModuleId

  /** `\.kpm$` matches at j: exactly `.kpm` remains. */
  predicate TailMatchesAt(s: string, j: nat)
    requires j <= |s|
  {
    s[j..] == KpmSuffix
  }

  /** Where the lazy group that has reached j ends, if the match can be completed. */
  function LazyGroupEnd(s: string, j: nat): (r: Option<nat>)
    requires j <= |s|
    ensures r.Some? ==> j <= r.value <= |s| && TailMatchesAt(s, r.value)
    decreases |s| - j
  {
    if TailMatchesAt(s, j) then Some(j)
    else if j < |s| && s[j] != '/' then LazyGroupEnd(s, j + 1)
    else None
  }

  /** The first match's group 1, trying start positions i, i + 1, ..., |s|. */
  function FindFrom(s: string, i: nat): Option<string>
    requires i <= |s|
    decreases |s| - i
  {
    match LazyGroupEnd(s, i)
    case Some(j) => Some(s[i..j])
    case None => if i == |s| then None else FindFrom(s, i + 1)
  }

  /** `Regex("([^/]*?)\\.kpm$").find(s)?.groupValues?.get(1)`. */
  function Find(s: string): Option<string> {
    FindFrom(s, 0)
  }

  /** A match is a span [i, j) free of `/` followed by the final `.kpm`. */
  ghost predicate MatchSpan(s: string, i: int, j: int) {
    0 <= i <= j <= |s| && '/' !in s[i..j] && TailMatchesAt(s, j)
  }

  lemma {:induction false} LazyGroupEndNoSuffix(s: string, j: nat)
    requires j <= |s| && !EndsWith(s, KpmSuffix)
    ensures LazyGroupEnd(s, j) == None
    decreases |s| - j
  {
    if j < |s| && s[j] != '/' {
      LazyGroupEndNoSuffix(s, j + 1);
    }
  }

  lemma {:induction false} FindFromNoSuffix(s: string, i: nat)
    requires i <= |s| && !EndsWith(s, KpmSuffix)
    ensures FindFrom(s, i) == None
    decreases |s| - i
  {
    LazyGroupEndNoSuffix(s, i);
    if i < |s| {
      FindFromNoSuffix(s, i + 1);
    }
  }

  /** From a position before the suffix, the lazy group ends at the suffix iff no `/` lies between. */
  lemma {:induction false} LazyGroupEndBeforeSuffix(s: string, j: nat)
    requires EndsWith(s, KpmSuffix) && j <= |s| - 4
    ensures LazyGroupEnd(s, j) == if '/' in s[j..|s| - 4] then None else Some(|s| - 4)
    decreases |s| - j
  {
    if j < |s| - 4 {
      assert !TailMatchesAt(s, j);
      assert s[j..|s| - 4] == [s[j]] + s[j + 1..|s| - 4];
      if s[j] != '/' {
        LazyGroupEndBeforeSuffix(s, j + 1);
      }
    }
  }

  lemma {:induction false} FindFromWithSuffix(s: string, i: nat, k: nat)
    requires EndsWith(s, KpmSuffix) && i <= k <= |s| - 4
    requires '/' !in s[k..|s| - 4] && (k > 0 ==> s[k - 1] == '/')
    ensures FindFrom(s, i) == Some(s[k..|s| - 4])
    decreases k - i
  {
    LazyGroupEndBeforeSuffix(s, i);
    if i < k {
      assert s[k - 1] == s[i..|s| - 4][k - 1 - i];
      FindFromWithSuffix(s, i + 1, k);
    }
  }

  /** The explicit id function agrees with the regular expression's first match. */
  lemma FindIsModuleId(s: string)
    ensures Find(s) == ModuleIdOf(s)
  {
    if EndsWith(s, KpmSuffix) {
      var id := ModuleIdOf(s).value;
      var k := |s| - 4 - |id|;
      assert s[k..|s| - 4] == id;
      FindFromWithSuffix(s, 0, k);
    } else {
      FindFromNoSuffix(s, 0);
    }
  }

  /** A found group g spans a match, and no earlier start position has one. */
  lemma FindIsLeftmostMatch(s: string, g: string)
    requires Find(s) == Some(g)
    ensures |g| + 4 <= |s| && MatchSpan(s, |s| - 4 - |g|, |s| - 4) && s[|s| - 4 - |g|..|s| - 4] == g
    ensures forall i, j :: 0 <= i < |s| - 4 - |g| ==> !MatchSpan(s, i, j)
  {
    FindIsModuleId(s);
    var k := |s| - 4 - |g|;
    assert s[k..|s| - 4] == g;
    forall i, j | 0 <= i < k ensures !MatchSpan(s, i, j) {
      if 0 <= i <= j <= |s| && TailMatchesAt(s, j) {
        assert j == |s| - 4;
        assert s[k - 1] == s[i..j][k - 1 - i];
      }
    }
  }

  /** A dotted name inside directories: the lazy group gives everything after the last `/`. */
  lemma WeirdNameExample()
    ensures Find("a/b" + "/" + "weird.name" + KpmSuffix) == Some("weird.name")
  {
    IdAfterLastSlash("a/b", "weird.name");
    FindIsModuleId("a/b" + "/" + "weird.name" + KpmSuffix);
  }
}
