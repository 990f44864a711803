/** The JavaScript string primitives the dashboard relies on: white space and
    `trim`, `toLowerCase`/`toUpperCase`, `includes` and the relational `<` on
    strings. Strings are sequences of Unicode scalar values. */
module JsText {

  /** ECMAScript WhiteSpace and LineTerminator code points, which `trim` and
      `parseFloat` skip. */
  predicate IsWhitespace(c: char) {
    || c == '\t' || c == '\n' || c == '\U{B}' || c == '\U{C}' || c == '\r' || c == ' '
    || c == '\U{A0}' || c == '\U{1680}' || ('\U{2000}' <= c <= '\U{200A}')
    || c == '\U{2028}' || c == '\U{2029}' || c == '\U{202F}' || c == '\U{205F}'
    || c == '\U{3000}' || c == '\U{FEFF}'
  }

  predicate AllWhitespace(s: string) {
    forall k :: 0 <= k < |s| ==> IsWhitespace(s[k])
  }

  /** A white-space character in front of white space is white space. */
  lemma WhitespaceCons(c: char, w: string)
    requires IsWhitespace(c) && AllWhitespace(w)
    ensures AllWhitespace([c] + w)
  {
    var cw := [c] + w;
    forall k | 0 <= k < |cw| ensures IsWhitespace(cw[k]) {
      if k > 0 { assert cw[k] == w[k - 1]; }
    }
  }

  /** The length of the leading run of white space in `s`. */
  function LeadingWhitespace(s: string): (n: nat)
    ensures n <= |s| && AllWhitespace(s[..n])
    ensures n < |s| ==> !IsWhitespace(s[n])
  {
    if |s| > 0 && IsWhitespace(s[0]) then
      var m := LeadingWhitespace(s[1..]);
      assert s[..m + 1] == [s[0]] + s[1..][..m];
      WhitespaceCons(s[0], s[1..][..m]);
      m + 1
    else 0
  }

  /** `String.prototype.trimStart`: drops the leading white space and nothing else. */
  function TrimStart(s: string): (r: string)
    ensures |r| <= |s| && r == s[|s| - |r|..]
    ensures AllWhitespace(s[..|s| - |r|])
    ensures r == [] || !IsWhitespace(r[0])
  {
    s[LeadingWhitespace(s)..]
  }

  /** `String.prototype.trimEnd`: drops the trailing white space and nothing else. */
  function TrimEnd(s: string): (r: string)
    ensures |r| <= |s| && r == s[..|r|]
    ensures AllWhitespace(s[|r|..])
    ensures r == [] || !IsWhitespace(r[|r| - 1])
  {
    if |s| > 0 && IsWhitespace(s[|s| - 1]) then
      var r := TrimEnd(s[..|s| - 1]);
      assert s[|r|..] == s[..|s| - 1][|r|..] + [s[|s| - 1]];
      r
    else s
  }

  /** `String.prototype.trim`: what is left of `s` once white space is
      removed at both ends. */
  function Trim(s: string): (r: string)
    ensures r == [] || (!IsWhitespace(r[0]) && !IsWhitespace(r[|r| - 1]))
  {
    var t := TrimStart(s);
    var r := TrimEnd(t);
    assert r != [] ==> r[0] == t[0];
    r
  }

  lemma {:induction false} TrimStartSkips(w: string, t: string)
    requires AllWhitespace(w) && (t == [] || !IsWhitespace(t[0]))
    ensures TrimStart(w + t) == t
  {
    if |w| > 0 {
      assert (w + t)[1..] == w[1..] + t;
      TrimStartSkips(w[1..], t);
      assert LeadingWhitespace(w + t) == 1 + LeadingWhitespace(w[1..] + t);
    } else {
      assert w + t == t;
    }
  }

  lemma {:induction false} TrimEndSkips(t: string, w: string)
    requires AllWhitespace(w) && (t == [] || !IsWhitespace(t[|t| - 1]))
    ensures TrimEnd(t + w) == t
  {
    if |w| > 0 {
      assert (t + w)[..|t + w| - 1] == t + w[..|w| - 1];
      TrimEndSkips(t, w[..|w| - 1]);
    } else {
      assert t + w == t;
    }
  }

  /** `trim` removes exactly the white space around text that neither
      starts nor ends with white space. */
  lemma TrimRemovesPadding(w1: string, s: string, w2: string)
    requires AllWhitespace(w1) && AllWhitespace(w2)
    requires s == [] || (!IsWhitespace(s[0]) && !IsWhitespace(s[|s| - 1]))
    ensures Trim(w1 + s + w2) == s
  {
    if s == [] {
      assert w1 + s + w2 == (w1 + w2) + [];
      TrimStartSkips(w1 + w2, []);
    } else {
      assert w1 + s + w2 == w1 + (s + w2);
      TrimStartSkips(w1, s + w2);
      TrimEndSkips(s, w2);
    }
  }

  /** The letters `toLowerCase` changes here: ASCII and Latin-1 capitals, and `Ÿ`. */
  predicate IsUpperLetter(c: char) {
    || 'A' <= c <= 'Z' || ('\U{C0}' <= c <= '\U{DE}' && c != '\U{D7}') || c == '\U{178}'
  }

  /** The letters `toUpperCase` changes here: ASCII and Latin-1 small letters
      that have a one-character capital, `ÿ` and `µ`. */
  predicate IsLowerLetter(c: char) {
    || 'a' <= c <= 'z' || ('\U{E0}' <= c <= '\U{FE}' && c != '\U{F7}') || c == '\U{FF}' || c == '\U{B5}'
  }

  /** Case mapping of `toLowerCase` for the letters above. */
  function LowerChar(c: char): char {
    if c == '\U{178}' then '\U{FF}'
    else if IsUpperLetter(c) then (c as int + 32) as char
    else c
  }

  /** Case mapping of `toUpperCase` for the letters above. */
  function UpperChar(c: char): char {
    if c == '\U{FF}' then '\U{178}'
    else if c == '\U{B5}' then '\U{39C}'
    else if IsLowerLetter(c) then (c as int - 32) as char
    else c
  }

  /** `String.prototype.toLowerCase`: no capital is left, every other
      character is kept, and each capital becomes the small letter whose
      capital it is. */
  function ToLower(s: string): (r: string)
    ensures |r| == |s|
    ensures forall k :: 0 <= k < |r| ==> !IsUpperLetter(r[k])
    ensures forall k :: 0 <= k < |r| && !IsUpperLetter(s[k]) ==> r[k] == s[k]
    ensures forall k :: 0 <= k < |r| && IsUpperLetter(s[k]) ==> IsLowerLetter(r[k]) && UpperChar(r[k]) == s[k]
  {
    seq(|s|, k requires 0 <= k < |s| => LowerChar(s[k]))
  }

  /** `String.prototype.toUpperCase`: no small letter is left, every other
      character is kept, and each small letter other than `µ` becomes the
      capital whose small letter it is. */
  function ToUpper(s: string): (r: string)
    ensures |r| == |s|
    ensures forall k :: 0 <= k < |r| ==> !IsLowerLetter(r[k])
    ensures forall k :: 0 <= k < |r| && !IsLowerLetter(s[k]) ==> r[k] == s[k]
    ensures forall k :: 0 <= k < |r| && IsLowerLetter(s[k]) && s[k] != '\U{B5}' ==>
      IsUpperLetter(r[k]) && LowerChar(r[k]) == s[k]
  {
    seq(|s|, k requires 0 <= k < |s| => UpperChar(s[k]))
  }

  /** Lower-casing twice is lower-casing once, so a query lower-cased when it
      is typed is unchanged by lower-casing it again. */
  lemma ToLowerIdempotent(s: string)
    ensures ToLower(ToLower(s)) == ToLower(s)
  {
    var t := ToLower(s);
    forall k | 0 <= k < |s| ensures ToLower(t)[k] == t[k] {
      assert LowerChar(LowerChar(s[k])) == LowerChar(s[k]);
    }
  }

  /** Upper-casing twice is upper-casing once. */
  lemma ToUpperIdempotent(s: string)
    ensures ToUpper(ToUpper(s)) == ToUpper(s)
  {
    var t := ToUpper(s);
    forall k | 0 <= k < |s| ensures ToUpper(t)[k] == t[k] {
      assert UpperChar(UpperChar(s[k])) == UpperChar(s[k]);
    }
  }

  /** Lower-casing forgets case: upper-casing first changes nothing, except
      for `µ`, whose capital `Μ` lower-cases to Greek `μ`. */
  lemma LowerOfUpper(s: string)
    requires forall k :: 0 <= k < |s| ==> s[k] != '\U{B5}'
    ensures ToLower(ToUpper(s)) == ToLower(s)
  {
    var t := ToUpper(s);
    forall k | 0 <= k < |s| ensures ToLower(t)[k] == ToLower(s)[k] {
      assert LowerChar(UpperChar(s[k])) == LowerChar(s[k]);
    }
  }

  /** Upper-casing forgets case: lower-casing first changes nothing. */
  lemma UpperOfLower(s: string)
    ensures ToUpper(ToLower(s)) == ToUpper(s)
  {
    var t := ToLower(s);
    forall k | 0 <= k < |s| ensures ToUpper(t)[k] == ToUpper(s)[k] {
      assert UpperChar(LowerChar(s[k])) == UpperChar(s[k]);
    }
  }

  predicate StartsWith(s: string, prefix: string) {
    |prefix| <= |s| && s[..|prefix|] == prefix
  }

  /** `String.prototype.includes`: `sub` starts at some position of `s`. */
  predicate Includes(s: string, sub: string) {
    StartsWith(s, sub) || (|s| > 0 && Includes(s[1..], sub))
  }

  /** `sub` occurs in `s` starting at index `i`. */
  predicate OccursAt(s: string, sub: string, i: int) {
    0 <= i <= |s| - |sub| && s[i..i + |sub|] == sub
  }

  /** `includes` holds exactly when `sub` occurs at some index of `s`. */
  lemma {:induction false} IncludesAt(s: string, sub: string)
    ensures Includes(s, sub) <==> exists i :: OccursAt(s, sub, i)
  {
    if |s| > 0 {
      IncludesAt(s[1..], sub);
      if StartsWith(s, sub) {
        assert OccursAt(s, sub, 0);
      } else if Includes(s[1..], sub) {
        var i :| OccursAt(s[1..], sub, i);
        assert s[i + 1..i + 1 + |sub|] == s[1..][i..i + |sub|];
        assert OccursAt(s, sub, i + 1);
      }
      if i :| OccursAt(s, sub, i) {
        if i > 0 {
          assert s[1..][i - 1..i - 1 + |sub|] == s[i..i + |sub|];
          assert OccursAt(s[1..], sub, i - 1);
        }
      }
    } else {
      if StartsWith(s, sub) {
        assert OccursAt(s, sub, 0);
      }
      if i :| OccursAt(s, sub, i) {
        assert sub == [] && StartsWith(s, sub);
      }
    }
  }

  /** An occurrence of `sub` in `s` is an occurrence of the lower-cased
      `sub` in the lower-cased `s`. */
  lemma IncludesIgnoresCase(s: string, sub: string)
    requires Includes(s, sub)
    ensures Includes(ToLower(s), ToLower(sub))
  {
    IncludesAt(s, sub);
    var i :| OccursAt(s, sub, i);
    assert ToLower(s)[i..i + |sub|] == ToLower(sub) by {
      forall k | 0 <= k < |sub| ensures ToLower(s)[i + k] == ToLower(sub)[k] {
        assert s[i + k] == s[i..i + |sub|][k];
      }
    }
    assert OccursAt(ToLower(s), ToLower(sub), i);
    IncludesAt(ToLower(s), ToLower(sub));
  }

  /** The empty search text is included in every string. */
  lemma EmptyIncluded(s: string)
    ensures Includes(s, "")
  {
    assert StartsWith(s, "");
  }

  /** The relational `<` on strings: lexicographic order on characters, a
      proper prefix coming first. */
  predicate Less(a: string, b: string) {
    if |a| == 0 then |b| > 0
    else if |b| == 0 then false
    else if a[0] != b[0] then a[0] < b[0]
    else Less(a[1..], b[1..])
  }

  lemma {:induction false} LessIrreflexive(a: string)
    ensures !Less(a, a)
  {
    if |a| > 0 {
      LessIrreflexive(a[1..]);
    }
  }

  lemma {:induction false} LessAsymmetric(a: string, b: string)
    ensures Less(a, b) ==> !Less(b, a)
  {
    if |a| > 0 && |b| > 0 && a[0] == b[0] {
      LessAsymmetric(a[1..], b[1..]);
    }
  }

  lemma {:induction false} LessTransitive(a: string, b: string, c: string)
    requires Less(a, b) && Less(b, c)
    ensures Less(a, c)
  {
    if |a| > 0 && a[0] == b[0] && b[0] == c[0] {
      LessTransitive(a[1..], b[1..], c[1..]);
    }
  }

  lemma {:induction false} LessTrichotomous(a: string, b: string)
    ensures a == b || Less(a, b) || Less(b, a)
  {
    if |a| > 0 && |b| > 0 && a[0] == b[0] {
      LessTrichotomous(a[1..], b[1..]);
      if a[1..] == b[1..] {
        assert a == [a[0]] + a[1..] && b == [b[0]] + b[1..];
      }
    }
  }
}
