/** h13 StringEndsWith: the predicate "ends with the given suffix". */
module StringEndsWiths {
  import opened JavaString

  datatype StringEndsWith = StringEndsWith(suffix: string) {

    /** test(s): s ends with the suffix. */
    predicate Test(s: string) {
      EndsWith(s, suffix)
    }
  }

  /**
   * test accepts exactly the strings made of some string followed by the
   * suffix (the suffix itself among them).
   */
  lemma TestMeaning(p: StringEndsWith, s: string)
    ensures p.Test(s) <==> exists t :: s == t + p.suffix
  {
    if p.Test(s) {
      assert s == s[..|s| - |p.suffix|] + p.suffix;
    }
    if exists t :: s == t + p.suffix {
      var t :| s == t + p.suffix;
      assert s[|s| - |p.suffix|..] == p.suffix;
    }
  }

  /** Any string followed by the suffix passes the test. */
  lemma AcceptsAnyPrefix(p: StringEndsWith, t: string)
    ensures p.Test(t + p.suffix) && p.Test(p.suffix)
  {
    assert (t + p.suffix)[|t|..] == p.suffix;
    assert p.suffix[0..] == p.suffix;
  }
}
