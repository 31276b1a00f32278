/**
 * The two string operations the script uses: the suffix test that picks a
 * file format, and `s.replace('\n', '')` applied to every report field.
 */
module Text {

  /** Python's `s.endswith(suffix)`. */
  predicate EndsWith(s: string, suffix: string)
    ensures EndsWith(s, suffix) <==> |suffix| <= |s| && s == s[..|s| - |suffix|] + suffix
  {
    |suffix| <= |s| && s[|s| - |suffix|..] == suffix
  }

  /** Python's `s.replace('\n', '')`: every newline removed. */
  function StripNewlines(s: string): (r: string)
    ensures |r| <= |s|
    ensures '\n' !in r
  {
    if s == [] then []
    else if s[0] == '\n' then StripNewlines(s[1..])
    else [s[0]] + StripNewlines(s[1..])
  }

  /** Stripping works piece by piece, so the kept characters stay in their order. */
  lemma {:induction false} StripNewlinesDistributes(a: string, b: string)
    ensures StripNewlines(a + b) == StripNewlines(a) + StripNewlines(b)
  {
    if a == [] {
      assert a + b == b;
    } else {
      assert (a + b)[0] == a[0];
      assert (a + b)[1..] == a[1..] + b;
      StripNewlinesDistributes(a[1..], b);
    }
  }

  /** Only newlines go: every other character keeps its number of occurrences. */
  lemma {:induction false} StripNewlinesKeepsOthers(s: string)
    ensures multiset(StripNewlines(s)) == multiset(s)['\n' := 0]
  {
    if s != [] {
      StripNewlinesKeepsOthers(s[1..]);
      assert s == [s[0]] + s[1..];
      assert multiset(s) == multiset{s[0]} + multiset(s[1..]);
    }
  }

  /** A text without newlines is left as it is. */
  lemma {:induction false} StripNewlinesFixesClean(s: string)
    requires '\n' !in s
    ensures StripNewlines(s) == s
  {
    if s != [] {
      assert s[0] != '\n';
      assert forall c :: c in s[1..] ==> c in s;
      StripNewlinesFixesClean(s[1..]);
    }
  }

  /** Stripping twice is stripping once. */
  lemma {:induction false} StripNewlinesIdempotent(s: string)
    ensures StripNewlines(StripNewlines(s)) == StripNewlines(s)
  {
    StripNewlinesFixesClean(StripNewlines(s));
  }

  /** A name ending in ".csv.gz" never ends in ".csv", so the order of the two tests picks no winner. */
  lemma GzipIsNotPlain(s: string)
    ensures !(EndsWith(s, ".csv.gz") && EndsWith(s, ".csv"))
  {
    if EndsWith(s, ".csv.gz") {
      assert s[|s| - 1] == s[|s| - 7..][6] == 'z';
      assert s[|s| - 4..][3] == s[|s| - 1];
    }
  }
}
