/** Character and string helpers shared by the upload validator, the badge naming and the
    request handler: ASCII case mapping (Python's `str.upper` / `str.lower` restricted to
    ASCII letters) and the search for the last occurrence of a separator, which underlies
    `str.rsplit(sep, 1)` and `os.path.basename`. */
module Strings {

  predicate IsLowerAscii(c: char) { 'a' <= c <= 'z' }

  predicate IsUpperAscii(c: char) { 'A' <= c <= 'Z' }

  function UpperChar(c: char): char
  {
    if IsLowerAscii(c) then (c as int - 32) as char else c
  }

  function LowerChar(c: char): char
  {
    if IsUpperAscii(c) then (c as int + 32) as char else c
  }

  /** `s.upper()` on ASCII letters; every other character is kept. */
  function Upper(s: string): (u: string)
    ensures |u| == |s|
    ensures forall i :: 0 <= i < |s| ==> !IsLowerAscii(u[i])
    ensures forall i :: 0 <= i < |s| && !IsLowerAscii(s[i]) ==> u[i] == s[i]
    ensures forall i :: 0 <= i < |s| && IsLowerAscii(s[i]) ==>
      IsUpperAscii(u[i]) && u[i] as int - 'A' as int == s[i] as int - 'a' as int
  {
    seq(|s|, i requires 0 <= i < |s| => UpperChar(s[i]))
  }

  /** `s.lower()` on ASCII letters; every other character is kept. */
  function Lower(s: string): (l: string)
    ensures |l| == |s|
    ensures forall i :: 0 <= i < |s| ==> !IsUpperAscii(l[i])
    ensures forall i :: 0 <= i < |s| && !IsUpperAscii(s[i]) ==> l[i] == s[i]
    ensures forall i :: 0 <= i < |s| && IsUpperAscii(s[i]) ==>
      IsLowerAscii(l[i]) && l[i] as int - 'a' as int == s[i] as int - 'A' as int
  {
    seq(|s|, i requires 0 <= i < |s| => LowerChar(s[i]))
  }

  /** Index of the last `c` in `s`, or -1 when `s` has none. */
  function LastIndexOf(s: string, c: char): (r: int)
    ensures -1 <= r < |s|
    ensures r == -1 <==> c !in s
    ensures 0 <= r ==> s[r] == c && c !in s[r + 1..]
    decreases |s|
  {
    if |s| == 0 then -1
    else if s[|s| - 1] == c then |s| - 1
    else
      var r := LastIndexOf(s[..|s| - 1], c);
      assert s[..|s| - 1] + [s[|s| - 1]] == s;
      assert r >= 0 ==> s[r + 1..] == s[..|s| - 1][r + 1..] + [s[|s| - 1]];
      r
  }

  /** The text after the last `c`: `s.rsplit(c, 1)[1]` in Python. */
  function AfterLast(s: string, c: char): (t: string)
    requires c in s
    ensures c !in t
    ensures |t| < |s| && s == s[..|s| - |t| - 1] + [c] + t
  {
    var i := LastIndexOf(s, c);
    assert s == s[..i] + [c] + s[i + 1..];
    s[i + 1..]
  }

  /** The last `c` of `p + [c] + n` is the one between them when `n` holds none. */
  lemma {:induction false} LastIndexOfSplit(p: string, c: char, n: string)
    requires c !in n
    ensures LastIndexOf(p + [c] + n, c) == |p|
    ensures AfterLast(p + [c] + n, c) == n
  {
    var s := p + [c] + n;
    if n != [] {
      var m := n[..|n| - 1];
      assert s[..|s| - 1] == p + [c] + m;
      assert s[|s| - 1] == n[|n| - 1] != c;
      assert c !in m by {
        forall k | 0 <= k < |m| ensures m[k] != c { assert m[k] == n[k]; }
      }
      LastIndexOfSplit(p, c, m);
    }
    assert s[|p| + 1..] == n;
  }

  /** Worked case: each letter becomes the capital of the same place in the alphabet. */
  lemma UpperExample()
    ensures Upper("ada") == "ADA"
  {
  }

  /** Upper-casing leaves no lower-case ASCII letter and is idempotent. */
  lemma UpperIsUpper(s: string)
    ensures |Upper(s)| == |s|
    ensures forall i :: 0 <= i < |s| ==> !IsLowerAscii(Upper(s)[i])
    ensures Upper(Upper(s)) == Upper(s)
  {
  }

  /** Lower-casing forgets whatever upper-casing did: `s.upper().lower() == s.lower()`. */
  lemma LowerOfUpper(s: string)
    ensures Lower(Upper(s)) == Lower(s)
  {
    assert forall i :: 0 <= i < |s| ==> Lower(Upper(s))[i] == Lower(s)[i];
  }

  /** Case mapping never creates or removes a character that is not a letter. */
  lemma CaseMappingKeepsNonLetters(s: string, c: char)
    requires !IsLowerAscii(c) && !IsUpperAscii(c)
    ensures c in Upper(s) <==> c in s
    ensures c in Lower(s) <==> c in s
  {
    if c in s {
      var i :| 0 <= i < |s| && s[i] == c;
      assert Upper(s)[i] == c && Lower(s)[i] == c;
    }
    if c in Upper(s) {
      var i :| 0 <= i < |s| && Upper(s)[i] == c;
      assert s[i] == c;
    }
    if c in Lower(s) {
      var i :| 0 <= i < |s| && Lower(s)[i] == c;
      assert s[i] == c;
    }
  }

  /** Case mapping works character by character, so it maps each side of a non-letter
      separately. */
  lemma CaseMappingAroundSeparator(p: string, c: char, t: string)
    requires !IsLowerAscii(c) && !IsUpperAscii(c)
    ensures Upper(p + [c] + t) == Upper(p) + [c] + Upper(t)
    ensures Lower(p + [c] + t) == Lower(p) + [c] + Lower(t)
  {
    var s := p + [c] + t;
    forall i | 0 <= i < |s|
      ensures Upper(s)[i] == (Upper(p) + [c] + Upper(t))[i]
      ensures Lower(s)[i] == (Lower(p) + [c] + Lower(t))[i]
    {
      if i < |p| { assert s[i] == p[i]; }
      else if i > |p| { assert s[i] == t[i - |p| - 1]; }
    }
  }

  /** Case mapping commutes with taking the text after the last separator. */
  lemma {:induction false} CaseMappingAfterLast(s: string, c: char)
    requires !IsLowerAscii(c) && !IsUpperAscii(c) && c in s
    ensures c in Upper(s) && AfterLast(Upper(s), c) == Upper(AfterLast(s, c))
    ensures c in Lower(s) && AfterLast(Lower(s), c) == Lower(AfterLast(s, c))
  {
    var t := AfterLast(s, c);
    var p := s[..|s| - |t| - 1];
    CaseMappingKeepsNonLetters(t, c);
    CaseMappingAroundSeparator(p, c, t);
    LastIndexOfSplit(Upper(p), c, Upper(t));
    LastIndexOfSplit(Lower(p), c, Lower(t));
  }
}
