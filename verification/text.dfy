/** The few `str` operations the reducer uses, on `seq<char>`. */
module Text {

  /** `s.startswith(p)` */
  predicate StartsWith(s: string, p: string) {
    |p| <= |s| && s[..|p|] == p
  }

  /** `s.endswith(p)` */
  predicate EndsWith(s: string, p: string) {
    |p| <= |s| && s[|s| - |p|..] == p
  }

  /** `p in s` for strings: `p` occurs somewhere in `s`. */
  predicate Contains(s: string, p: string)
    decreases |s|
  {
    StartsWith(s, p) || (|s| > 0 && Contains(s[1..], p))
  }

  /** A suffix is in particular an occurrence. */
  lemma {:induction false} EndsWithContains(s: string, p: string)
    requires EndsWith(s, p)
    ensures Contains(s, p)
  {
    if |s| == |p| {
      assert s[..|p|] == s[|s| - |p|..];
    } else {
      assert s[1..][|s| - 1 - |p|..] == s[|s| - |p|..];
      EndsWithContains(s[1..], p);
    }
  }

  /**
   * The tag `"start_" + x` ends in `"init"` exactly when `x` does: the
   * prefix can never supply part of the suffix, since none of its last four
   * characters is an `i`.
   */
  lemma StartTagEndsWithInit(x: string)
    ensures EndsWith("start_" + x, "init") <==> EndsWith(x, "init")
  {
    var s := "start_" + x;
    if |x| >= 4 {
      assert s[|s| - 4..] == x[|x| - 4..];
    } else {
      assert s[|s| - 4] == "start_"[|s| - 4];
      assert s[|s| - 4] != 'i';
      assert s[|s| - 4..][0] == s[|s| - 4];
    }
  }
}
