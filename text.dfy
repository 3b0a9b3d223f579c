/** The three `java.lang.String` operations the catalogue search relies on: `trim`,
    `toLowerCase` (restricted to ASCII letters) and `contains`. */
module Text {

  /** `String.trim` strips every character whose code is at most U+0020. */
  predicate IsBlankChar(c: char)
  {
    c <= ' '
  }

  /** `s` with its leading blank characters removed. */
  function TrimStart(s: string): (r: string)
    ensures |r| <= |s| && r == s[|s| - |r|..]
    ensures r == [] || !IsBlankChar(r[0])
    ensures forall i :: 0 <= i < |s| - |r| ==> IsBlankChar(s[i])
  {
    if s != [] && IsBlankChar(s[0]) then TrimStart(s[1..]) else s
  }

  /** `s` with its trailing blank characters removed. */
  function TrimEnd(s: string): (r: string)
    ensures |r| <= |s| && r == s[..|r|]
    ensures r == [] || !IsBlankChar(r[|r| - 1])
    ensures forall i :: |r| <= i < |s| ==> IsBlankChar(s[i])
  {
    if s != [] && IsBlankChar(s[|s| - 1]) then TrimEnd(s[..|s| - 1]) else s
  }

  /** `String.trim`: the part of `s` between its leading and trailing blanks. The result is
      empty exactly when `s` consists of blanks only, and otherwise starts and ends with a
      non-blank character of `s`. */
  function Trim(s: string): (r: string)
    ensures Contains(s, r)
    ensures r == [] <==> forall i :: 0 <= i < |s| ==> IsBlankChar(s[i])
    ensures r != [] ==> !IsBlankChar(r[0]) && !IsBlankChar(r[|r| - 1])
    ensures exists k :: TrimmedAt(s, r, k)
  {
    TrimSplit(s);
    TrimEnd(TrimStart(s))
  }

  /** The two trims together drop exactly the leading and trailing blanks. */
  lemma TrimSplit(s: string)
    ensures TrimmedAt(s, TrimEnd(TrimStart(s)), |s| - |TrimStart(s)|)
  {
    var t := TrimStart(s);
    var r := TrimEnd(t);
    var k := |s| - |t|;
    assert s[k..k + |r|] == t[..|r|];
    forall i | k + |r| <= i < |s|
      ensures IsBlankChar(s[i])
    {
      assert s[i] == t[i - k];
    }
  }

  /** `r` is `s` with the `k` characters before it and everything after it dropped, and all the
      dropped characters are blanks. */
  predicate TrimmedAt(s: string, r: string, k: int)
  {
    && OccursAt(s, r, k)
    && (forall i :: 0 <= i < k ==> IsBlankChar(s[i]))
    && (forall i :: k + |r| <= i < |s| ==> IsBlankChar(s[i]))
  }

  /** `Character.toLowerCase` on the ASCII letters; every other character is left alone. */
  function LowerChar(c: char): char
  {
    if 'A' <= c <= 'Z' then (c as int - 'A' as int + 'a' as int) as char else c
  }

  /** `String.toLowerCase`, character by character: each upper-case ASCII letter becomes its
      lower-case letter, so none is left, and every other character stays where it was. */
  function Lower(s: string): (r: string)
    ensures |r| == |s|
    ensures forall i :: 0 <= i < |r| ==> !('A' <= r[i] <= 'Z')
    ensures forall i :: 0 <= i < |s| && !('A' <= s[i] <= 'Z') ==> r[i] == s[i]
    ensures forall i :: 0 <= i < |s| && 'A' <= s[i] <= 'Z' ==>
      r[i] == (s[i] as int - 'A' as int + 'a' as int) as char
  {
    seq(|s|, i requires 0 <= i < |s| => LowerChar(s[i]))
  }

  /** `pat` occurs in `s` starting at index `k`. */
  predicate OccursAt(s: string, pat: string, k: int)
  {
    0 <= k <= |s| - |pat| && s[k..k + |pat|] == pat
  }

  /** `String.contains`: `pat` occurs in `s` as a contiguous block (the empty pattern occurs
      everywhere). */
  function Contains(s: string, pat: string): (r: bool)
    ensures r <==> exists k :: OccursAt(s, pat, k)
  {
    if pat <= s then
      assert OccursAt(s, pat, 0);
      true
    else if s == [] then
      false
    else
      OccursShift(s, pat);
      Contains(s[1..], pat)
  }

  /** Occurrences in `s[1..]` are the occurrences in `s` after index 0, shifted by one. */
  lemma OccursShift(s: string, pat: string)
    requires s != [] && !(pat <= s)
    ensures (exists k :: OccursAt(s[1..], pat, k)) <==> (exists k :: OccursAt(s, pat, k))
  {
    forall k | OccursAt(s[1..], pat, k)
      ensures OccursAt(s, pat, k + 1)
    {
      assert s[1..][k..k + |pat|] == s[k + 1..k + 1 + |pat|];
    }
    assert OccursAt(s, pat, 0) ==> pat <= s;
    forall k | OccursAt(s, pat, k)
      ensures OccursAt(s[1..], pat, k - 1)
    {
      assert s[1..][k - 1..k - 1 + |pat|] == s[k..k + |pat|];
    }
  }

  /** Lower-casing twice is the same as lower-casing once. */
  lemma LowerIdempotent(s: string)
    ensures Lower(Lower(s)) == Lower(s)
  {
  }

  /** Lower-casing never turns a blank into a non-blank or back, so it commutes with trimming. */
  lemma {:induction false} LowerTrimCommute(s: string)
    ensures Lower(Trim(s)) == Trim(Lower(s))
  {
    LowerTrimStart(s);
    LowerTrimEnd(TrimStart(s));
  }

  lemma {:induction false} LowerTrimStart(s: string)
    ensures Lower(TrimStart(s)) == TrimStart(Lower(s))
  {
    if s != [] {
      var l := Lower(s);
      assert l[0] == LowerChar(s[0]) && l[1..] == Lower(s[1..]);
      LowerKeepsBlanks(s[0]);
      if IsBlankChar(s[0]) {
        LowerTrimStart(s[1..]);
      }
    }
  }

  lemma {:induction false} LowerTrimEnd(s: string)
    ensures Lower(TrimEnd(s)) == TrimEnd(Lower(s))
  {
    if s != [] {
      var l := Lower(s);
      assert l[|s| - 1] == LowerChar(s[|s| - 1]) && l[..|s| - 1] == Lower(s[..|s| - 1]);
      LowerKeepsBlanks(s[|s| - 1]);
      if IsBlankChar(s[|s| - 1]) {
        LowerTrimEnd(s[..|s| - 1]);
      }
    }
  }

  /** Lower-casing maps blanks to blanks and non-blanks to non-blanks. */
  lemma LowerKeepsBlanks(c: char)
    ensures IsBlankChar(LowerChar(c)) <==> IsBlankChar(c)
  {
  }

  /** Every character of `s` is a blank. */
  predicate AllBlank(s: string)
  {
    forall i :: 0 <= i < |s| ==> IsBlankChar(s[i])
  }

  /** Trimming ignores any run of blanks added before or after the string. */
  lemma TrimIgnoresSurroundingBlanks(pre: string, q: string, post: string)
    requires AllBlank(pre) && AllBlank(post)
    ensures Trim(pre + q + post) == Trim(q)
  {
    assert pre + q + post == pre + (q + post);
    TrimStartBlankPrefix(pre, q + post);
    TrimStartAppendBlanks(q, post);
    if TrimStart(q) != [] {
      TrimEndBlankSuffix(TrimStart(q), post);
    }
  }

  /** A blank prefix is dropped by `TrimStart` together with the leading blanks behind it. */
  lemma {:induction false} TrimStartBlankPrefix(pre: string, t: string)
    requires AllBlank(pre)
    ensures TrimStart(pre + t) == TrimStart(t)
  {
    if pre == [] {
      assert pre + t == t;
    } else {
      assert (pre + t)[0] == pre[0] && (pre + t)[1..] == pre[1..] + t;
      TrimStartBlankPrefix(pre[1..], t);
    }
  }

  /** A blank suffix is dropped by `TrimEnd` together with the trailing blanks before it. */
  lemma {:induction false} TrimEndBlankSuffix(t: string, post: string)
    requires AllBlank(post)
    ensures TrimEnd(t + post) == TrimEnd(t)
  {
    if post == [] {
      assert t + post == t;
    } else {
      var n := |t + post|;
      assert (t + post)[n - 1] == post[|post| - 1];
      assert (t + post)[..n - 1] == t + post[..|post| - 1];
      TrimEndBlankSuffix(t, post[..|post| - 1]);
    }
  }

  /** Blanks appended to a string survive `TrimStart` unless the whole string is blank. */
  lemma {:induction false} TrimStartAppendBlanks(q: string, post: string)
    requires AllBlank(post)
    ensures TrimStart(q + post) == if TrimStart(q) == [] then [] else TrimStart(q) + post
  {
    if q == [] {
      assert q + post == post;
      TrimStartBlankPrefix(post, []);
      assert post + [] == post;
    } else {
      assert (q + post)[0] == q[0] && (q + post)[1..] == q[1..] + post;
      if IsBlankChar(q[0]) {
        TrimStartAppendBlanks(q[1..], post);
      }
    }
  }
}
