/**
  The JavaScript string operations the extension relies on: `String.prototype.trim`,
  `String.prototype.toLowerCase` (restricted to ASCII letters), `String.prototype.includes`
  and `Array.prototype.join`, each with an independent characterisation.
 */
module Text {

  /** The characters `trim` removes: ECMAScript WhiteSpace (tab, vertical tab, form feed,
      space, no-break space, byte order mark and the Unicode space separators) and
      LineTerminator (line feed, carriage return, line and paragraph separators). */
  const Spaces: set<char> := {
    '\t', '\U{000B}', '\U{000C}', ' ', '\U{00A0}', '\U{FEFF}', '\U{1680}',
    '\U{2000}', '\U{2001}', '\U{2002}', '\U{2003}', '\U{2004}', '\U{2005}',
    '\U{2006}', '\U{2007}', '\U{2008}', '\U{2009}', '\U{200A}',
    '\U{202F}', '\U{205F}', '\U{3000}',
    '\n', '\r', '\U{2028}', '\U{2029}'
  }

  predicate IsSpace(c: char) {
    c in Spaces
  }

  /** Every character of `s` at positions `lo` up to `hi` is white space. */
  ghost predicate SpaceBetween(s: string, lo: int, hi: int) {
    forall i :: lo <= i < hi && 0 <= i < |s| ==> IsSpace(s[i])
  }

  ghost predicate AllSpace(s: string) {
    SpaceBetween(s, 0, |s|)
  }

  // ---------------------------------------------------------------- trim

  /** Drops leading white space: the result is a suffix of `s`, everything dropped is
      white space, and the result does not start with white space. */
  function TrimStart(s: string): (r: string)
    ensures |r| <= |s| && r == s[|s| - |r|..]
    ensures SpaceBetween(s, 0, |s| - |r|)
    ensures r == [] || !IsSpace(r[0])
  {
    if |s| > 0 && IsSpace(s[0]) then
      var r := TrimStart(s[1..]);
      assert SpaceBetween(s, 0, |s| - |r|) by {
        forall i | 0 <= i < |s| - |r|
          ensures IsSpace(s[i])
        {
          if i > 0 {
            var j := i - 1;
            assert IsSpace(s[1..][j]);
            assert s[1..][j] == s[i];
          }
        }
      }
      r
    else
      s
  }

  /** Drops trailing white space: the result is a prefix of `s`, everything dropped is
      white space, and the result does not end with white space. */
  function TrimEnd(s: string): (r: string)
    ensures |r| <= |s| && r == s[..|r|]
    ensures SpaceBetween(s, |r|, |s|)
    ensures r == [] || !IsSpace(r[|r| - 1])
  {
    if |s| > 0 && IsSpace(s[|s| - 1]) then
      TrimEnd(s[..|s| - 1])
    else
      s
  }

  /** `r` is `s` with its leading `k` and its trailing white space cut off, and `r`
      neither starts nor ends with white space. */
  ghost predicate TrimmedAt(r: string, s: string, k: int) {
    && 0 <= k && k + |r| <= |s|
    && r == s[k..k + |r|]
    && SpaceBetween(s, 0, k) && SpaceBetween(s, k + |r|, |s|)
    && (r == [] || (!IsSpace(r[0]) && !IsSpace(r[|r| - 1])))
  }

  /** The reference meaning of `trim`: `r` is the white-space-free core of `s`. */
  ghost predicate IsTrimOf(r: string, s: string) {
    exists k :: TrimmedAt(r, s, k)
  }

  /** The white space `TrimEnd` drops from the suffix `s[k..]` is white space of `s`. */
  lemma SuffixSpace(s: string, k: int, t: string, r: string)
    requires 0 <= k <= |s| && t == s[k..] && |r| <= |t| && SpaceBetween(t, |r|, |t|)
    ensures SpaceBetween(s, k + |r|, |s|)
  {
    forall i | k + |r| <= i < |s|
      ensures IsSpace(s[i])
    {
      var j := i - k;
      assert IsSpace(t[j]);
      assert t[j] == s[i];
    }
  }

  /** `String.prototype.trim`. */
  function Trim(s: string): (r: string)
    ensures IsTrimOf(r, s)
  {
    var t := TrimStart(s);
    var r := TrimEnd(t);
    var k := |s| - |t|;
    assert r == s[k..k + |r|] by {
      assert t == s[k..];
      assert s[k..][..|r|] == s[k..k + |r|];
    }
    SuffixSpace(s, k, t, r);
    assert r != [] ==> r[0] == t[0];
    assert TrimmedAt(r, s, k);
    r
  }

  /** At most one string is the trimmed core of `s`, so `Trim` is fully determined by `IsTrimOf`. */
  lemma TrimUnique(r1: string, r2: string, s: string)
    requires IsTrimOf(r1, s) && IsTrimOf(r2, s)
    ensures r1 == r2
  {
    var k1 :| TrimmedAt(r1, s, k1);
    var k2 :| TrimmedAt(r2, s, k2);
    if r1 != [] && r2 != [] {
      assert s[k1] == r1[0] && s[k2] == r2[0];
      assert k1 == k2;
      assert s[k1 + |r1| - 1] == r1[|r1| - 1] && s[k2 + |r2| - 1] == r2[|r2| - 1];
    }
  }

  /** A string that neither starts nor ends with white space is its own trimmed core. */
  lemma TrimmedIsOwnTrim(t: string)
    requires t == [] || (!IsSpace(t[0]) && !IsSpace(t[|t| - 1]))
    ensures Trim(t) == t
  {
    assert TrimmedAt(t, t, 0);
    TrimUnique(Trim(t), t, t);
  }

  /** Trimming twice is trimming once. */
  lemma TrimIdempotent(s: string)
    ensures Trim(Trim(s)) == Trim(s)
  {
    var t := Trim(s);
    var k :| TrimmedAt(t, s, k);
    TrimmedIsOwnTrim(t);
  }

  /** `trim` yields the empty string exactly when the input is all white space. */
  lemma TrimEmptyIff(s: string)
    ensures Trim(s) == [] <==> AllSpace(s)
  {
    var t := Trim(s);
    var k :| TrimmedAt(t, s, k);
    if t != [] {
      assert s[k] == t[0];
    }
  }

  // ---------------------------------------------------------------- toLowerCase

  /** Lower-case mapping of one character; only the ASCII letters A-Z change. */
  function LowerChar(c: char): char {
    if 'A' <= c <= 'Z' then (c as int + 32) as char else c
  }

  /** `String.prototype.toLowerCase` on ASCII letters: same length, every character mapped. */
  function ToLower(s: string): (r: string)
    ensures |r| == |s|
    ensures forall i {:trigger r[i]} :: 0 <= i < |s| ==> r[i] == LowerChar(s[i])
  {
    if |s| == 0 then "" else [LowerChar(s[0])] + ToLower(s[1..])
  }

  /** The lower-case form of a character is no capital and is its own lower-case form. */
  lemma LowerCharIdempotent(c: char)
    ensures !('A' <= LowerChar(c) <= 'Z') && LowerChar(LowerChar(c)) == LowerChar(c)
  {
  }

  /** Lower-casing leaves no ASCII capital behind, and doing it again changes nothing. */
  lemma ToLowerIdempotent(s: string)
    ensures forall i :: 0 <= i < |s| ==> !('A' <= ToLower(s)[i] <= 'Z')
    ensures ToLower(ToLower(s)) == ToLower(s)
  {
    var l := ToLower(s);
    var ll := ToLower(l);
    forall i | 0 <= i < |s|
      ensures !('A' <= l[i] <= 'Z') && ll[i] == l[i]
    {
      LowerCharIdempotent(s[i]);
      assert l[i] == LowerChar(s[i]);
      assert ll[i] == LowerChar(l[i]);
    }
  }

  /** Lower-casing commutes with taking a slice. */
  lemma ToLowerSlice(s: string, i: int, j: int)
    requires 0 <= i <= j <= |s|
    ensures ToLower(s)[i..j] == ToLower(s[i..j])
  {
    var a, b := ToLower(s)[i..j], ToLower(s[i..j]);
    forall k | 0 <= k < j - i
      ensures a[k] == b[k]
    {
      assert s[i..j][k] == s[i + k];
    }
  }

  /** A character is white space exactly when its lower-case form is. */
  lemma LowerCharKeepsSpace(c: char)
    ensures IsSpace(LowerChar(c)) <==> IsSpace(c)
  {
    if 'A' <= c <= 'Z' {
      assert 'a' <= LowerChar(c) <= 'z';
    }
  }

  /** Lower-casing keeps white space where it was. */
  lemma ToLowerKeepsSpace(s: string, lo: int, hi: int)
    requires SpaceBetween(s, lo, hi)
    ensures SpaceBetween(ToLower(s), lo, hi)
  {
    var l := ToLower(s);
    forall i | lo <= i < hi && 0 <= i < |l|
      ensures IsSpace(l[i])
    {
      assert l[i] == LowerChar(s[i]);
    }
  }

  /** Lower-casing keeps a string free of white space at both ends. */
  lemma ToLowerKeepsEnds(t: string)
    requires t == [] || (!IsSpace(t[0]) && !IsSpace(t[|t| - 1]))
    ensures var u := ToLower(t); u == [] || (!IsSpace(u[0]) && !IsSpace(u[|u| - 1]))
  {
    if t != [] {
      LowerCharKeepsSpace(t[0]);
      LowerCharKeepsSpace(t[|t| - 1]);
    }
  }

  /** Lower-casing preserves the trimmed core found at `k`. */
  lemma ToLowerTrimmedAt(t: string, s: string, k: int)
    requires TrimmedAt(t, s, k)
    ensures TrimmedAt(ToLower(t), ToLower(s), k)
  {
    ToLowerSlice(s, k, k + |t|);
    ToLowerKeepsSpace(s, 0, k);
    ToLowerKeepsSpace(s, k + |t|, |s|);
    ToLowerKeepsEnds(t);
  }

  /** Trimming and lower-casing commute: the white space cut off is the same either way. */
  lemma TrimToLowerCommute(s: string)
    ensures Trim(ToLower(s)) == ToLower(Trim(s))
  {
    var t := Trim(s);
    var k :| TrimmedAt(t, s, k);
    ToLowerTrimmedAt(t, s, k);
    TrimUnique(Trim(ToLower(s)), ToLower(t), ToLower(s));
  }

  // ---------------------------------------------------------------- includes

  /** `sub` occurs in `s` starting at position `k`. */
  ghost predicate OccursAt(s: string, sub: string, k: int) {
    0 <= k && k + |sub| <= |s| && s[k..k + |sub|] == sub
  }

  ghost predicate IsSubstring(sub: string, s: string) {
    exists k :: OccursAt(s, sub, k)
  }

  /** `s.includes(sub)`, scanning the start positions from the left. */
  function Contains(s: string, sub: string): bool
    decreases |s|
  {
    if |sub| > |s| then false
    else if sub <= s then true
    else Contains(s[1..], sub)
  }

  /** An occurrence past the first character is an occurrence in the tail, and back. */
  lemma OccursInTail(s: string, sub: string, k: int)
    requires |s| > 0 && k > 0
    ensures OccursAt(s, sub, k) <==> OccursAt(s[1..], sub, k - 1)
  {
    if k + |sub| <= |s| {
      assert s[1..][k - 1..k - 1 + |sub|] == s[k..k + |sub|];
    }
  }

  /** `includes` holds exactly when `sub` occurs somewhere in `s`. */
  lemma {:induction false} ContainsIffSubstring(s: string, sub: string)
    ensures Contains(s, sub) <==> IsSubstring(sub, s)
    decreases |s|
  {
    if |sub| > |s| {
    } else if sub <= s {
      assert OccursAt(s, sub, 0);
    } else {
      ContainsIffSubstring(s[1..], sub);
      assert !OccursAt(s, sub, 0);
      if IsSubstring(sub, s[1..]) {
        var k :| OccursAt(s[1..], sub, k);
        OccursInTail(s, sub, k + 1);
      }
      if IsSubstring(sub, s) {
        var k :| OccursAt(s, sub, k);
        OccursInTail(s, sub, k);
      }
    }
  }

  /** An occurrence survives putting text in front of and behind the string. */
  lemma OccursInContext(a: string, b: string, c: string, sub: string, k: int)
    requires OccursAt(b, sub, k)
    ensures OccursAt(a + b + c, sub, |a| + k)
  {
    assert (a + b + c)[|a| + k..|a| + k + |sub|] == b[k..k + |sub|];
  }

  // ---------------------------------------------------------------- join

  /** `parts.join(sep)`. */
  function Join(parts: seq<string>, sep: string): string
  {
    if |parts| == 0 then ""
    else if |parts| == 1 then parts[0]
    else parts[0] + sep + Join(parts[1..], sep)
  }

  /** Where the `i`-th part starts in the joined string: every earlier part and its separator. */
  function Offset(parts: seq<string>, sep: string, i: nat): nat
    requires i <= |parts|
  {
    if i == 0 then 0 else |parts[0]| + |sep| + Offset(parts[1..], sep, i - 1)
  }

  /** Every part appears, in order, at its offset. */
  lemma {:induction false} JoinPlacesParts(parts: seq<string>, sep: string, i: nat)
    requires i < |parts|
    ensures OccursAt(Join(parts, sep), parts[i], Offset(parts, sep, i))
  {
    if i == 0 {
      if |parts| > 1 {
        var j := Join(parts, sep);
        assert j[..|parts[0]|] == parts[0];
      }
    } else {
      JoinPlacesParts(parts[1..], sep, i - 1);
      var head := parts[0] + sep;
      var o := Offset(parts[1..], sep, i - 1);
      var tail := Join(parts[1..], sep);
      assert (head + tail)[|head| + o..|head| + o + |parts[i]|] == tail[o..o + |parts[i]|];
    }
  }

  /** Between two neighbouring parts lies exactly one separator. */
  lemma {:induction false} JoinPlacesSeparators(parts: seq<string>, sep: string, i: nat)
    requires i + 1 < |parts|
    ensures OccursAt(Join(parts, sep), sep, Offset(parts, sep, i) + |parts[i]|)
  {
    var head := parts[0] + sep;
    var tail := Join(parts[1..], sep);
    if i == 0 {
      assert (head + tail)[|parts[0]|..|head|] == sep;
    } else {
      JoinPlacesSeparators(parts[1..], sep, i - 1);
      var o := Offset(parts[1..], sep, i - 1) + |parts[i]|;
      assert (head + tail)[|head| + o..|head| + o + |sep|] == tail[o..o + |sep|];
    }
  }

  /** The joined string ends right after the last part: no trailing separator. */
  lemma {:induction false} JoinLength(parts: seq<string>, sep: string)
    requires |parts| > 0
    ensures |Join(parts, sep)| == Offset(parts, sep, |parts| - 1) + |parts[|parts| - 1]|
  {
    if |parts| > 1 {
      var n := |parts|;
      JoinLength(parts[1..], sep);
      assert parts[1..][n - 2] == parts[n - 1];
      assert Offset(parts, sep, n - 1) == |parts[0]| + |sep| + Offset(parts[1..], sep, n - 2);
      assert Join(parts, sep) == parts[0] + sep + Join(parts[1..], sep);
    }
  }
}
