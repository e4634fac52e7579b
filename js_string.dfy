/**
 * The JavaScript string primitives the leaderboard code relies on, stated on
 * `seq<char>`: `String.prototype.trim`, `toLowerCase` (ASCII part),
 * `replace` with a string pattern (first occurrence only), the character
 * filter `replace(/[^\d.\-]/g, "")`, and `localeCompare` read as plain
 * code-point order.
 */
module JsString {

  /** WhiteSpace and LineTerminator code points, the characters `trim` removes. */
  predicate IsWhiteSpace(c: char)
  {
    c == '\t' || c == '\n' || c == '\U{B}' || c == '\U{C}' || c == '\r' || c == ' ' ||
    c == '\U{A0}' || c == '\U{1680}' || ('\U{2000}' <= c <= '\U{200A}') ||
    c == '\U{2028}' || c == '\U{2029}' || c == '\U{202F}' || c == '\U{205F}' ||
    c == '\U{3000}' || c == '\U{FEFF}'
  }

  /** All characters of `s` are white space. */
  predicate AllWhiteSpace(s: string)
  {
    forall k :: 0 <= k < |s| ==> IsWhiteSpace(s[k])
  }

  /** `trimStart`: drops the white space at the front. */
  function TrimStart(s: string): (r: string)
    ensures |r| <= |s|
  {
    if |s| > 0 && IsWhiteSpace(s[0]) then TrimStart(s[1..]) else s
  }

  /** `trimEnd`: drops the white space at the back. */
  function TrimEnd(s: string): (r: string)
    ensures |r| <= |s|
  {
    if |s| > 0 && IsWhiteSpace(s[|s| - 1]) then TrimEnd(s[..|s| - 1]) else s
  }

  /** `TrimStart(s)` is a suffix of `s`; what it cuts off is white space and what it keeps starts with none. */
  lemma {:induction false} TrimStartSpec(s: string)
    ensures var r := TrimStart(s);
      && r == s[|s| - |r|..]
      && AllWhiteSpace(s[..|s| - |r|])
      && (r == [] || !IsWhiteSpace(r[0]))
  {
    if |s| > 0 && IsWhiteSpace(s[0]) {
      TrimStartSpec(s[1..]);
      var r := TrimStart(s);
      assert s[|s| - |r|..] == s[1..][|s| - 1 - |r|..];
      assert s[..|s| - |r|] == [s[0]] + s[1..][..|s| - 1 - |r|];
    }
  }

  /** `TrimEnd(s)` is a prefix of `s`; what it cuts off is white space and what it keeps ends with none. */
  lemma {:induction false} TrimEndSpec(s: string)
    ensures var r := TrimEnd(s);
      && r == s[..|r|]
      && AllWhiteSpace(s[|r|..])
      && (r == [] || !IsWhiteSpace(r[|r| - 1]))
  {
    if |s| > 0 && IsWhiteSpace(s[|s| - 1]) {
      var n := |s| - 1;
      TrimEndSpec(s[..n]);
      var r := TrimEnd(s);
      assert s[..|r|] == s[..n][..|r|];
      assert s[|r|..] == s[..n][|r|..] + [s[n]];
    }
  }

  /** `s.trim()`: drops the white space at both ends and keeps the middle. */
  function Trim(s: string): string
  {
    TrimEnd(TrimStart(s))
  }

  lemma {:induction false} TrimStartKeeps(s: string, p: char -> bool)
    requires forall k :: 0 <= k < |s| ==> p(s[k])
    ensures forall k :: 0 <= k < |TrimStart(s)| ==> p(TrimStart(s)[k])
  {
    if |s| > 0 && IsWhiteSpace(s[0]) {
      TrimStartKeeps(s[1..], p);
    }
  }

  lemma {:induction false} TrimEndKeeps(s: string, p: char -> bool)
    requires forall k :: 0 <= k < |s| ==> p(s[k])
    ensures forall k :: 0 <= k < |TrimEnd(s)| ==> p(TrimEnd(s)[k])
  {
    if |s| > 0 && IsWhiteSpace(s[|s| - 1]) {
      TrimEndKeeps(s[..|s| - 1], p);
    }
  }

  /** Trimming only removes characters: whatever holds of every character of `s` holds of `Trim(s)`. */
  lemma TrimKeeps(s: string, p: char -> bool)
    requires forall k :: 0 <= k < |s| ==> p(s[k])
    ensures forall k :: 0 <= k < |Trim(s)| ==> p(Trim(s)[k])
  {
    TrimStartKeeps(s, p);
    TrimEndKeeps(TrimStart(s), p);
  }

  /** The ends of a trimmed text are not white space. */
  lemma TrimEdges(s: string)
    ensures var r := Trim(s); r == [] || (!IsWhiteSpace(r[0]) && !IsWhiteSpace(r[|r| - 1]))
  {
    var t := TrimStart(s);
    var r := TrimEnd(t);
    TrimStartSpec(s);
    TrimEndSpec(t);
    if r != [] {
      assert r[0] == t[0];
    }
  }

  /** A string with no white space at either end is left alone by `trim`. */
  lemma TrimNoEdgeSpace(s: string)
    requires s == [] || (!IsWhiteSpace(s[0]) && !IsWhiteSpace(s[|s| - 1]))
    ensures Trim(s) == s
  {
  }

  /** Trimming twice trims nothing more. */
  lemma TrimIdempotent(s: string)
    ensures Trim(Trim(s)) == Trim(s)
  {
    TrimEdges(s);
    TrimNoEdgeSpace(Trim(s));
  }

  /** `trim` removes any white space padding and nothing else. */
  lemma {:induction false} TrimPadding(pre: string, s: string, post: string)
    requires AllWhiteSpace(pre) && AllWhiteSpace(post)
    ensures Trim(pre + s + post) == Trim(s)
  {
    assert pre + s + post == pre + (s + post);
    TrimStartPadding(pre, s + post);
    var t := TrimStart(s);
    if t == [] {
      TrimStartSpec(s);
      assert s[..|s|] == s;
      assert AllWhiteSpace(s + post);
      TrimStartPadding(s + post, []);
      assert s + post + [] == s + post;
    } else {
      TrimStartKeepsTail(s, post);
      TrimEndPadding(t, post);
    }
  }

  lemma {:induction false} TrimStartPadding(pre: string, s: string)
    requires AllWhiteSpace(pre)
    ensures TrimStart(pre + s) == TrimStart(s)
  {
    if pre != [] {
      assert (pre + s)[1..] == pre[1..] + s;
      TrimStartPadding(pre[1..], s);
    } else {
      assert pre + s == s;
    }
  }

  lemma {:induction false} TrimStartKeepsTail(s: string, post: string)
    requires TrimStart(s) != []
    ensures TrimStart(s + post) == TrimStart(s) + post
  {
    if IsWhiteSpace(s[0]) {
      assert (s + post)[1..] == s[1..] + post;
      TrimStartKeepsTail(s[1..], post);
    }
  }

  lemma {:induction false} TrimEndPadding(s: string, post: string)
    requires AllWhiteSpace(post)
    ensures TrimEnd(s + post) == TrimEnd(s)
  {
    if post != [] {
      var n := |post| - 1;
      assert (s + post)[|s + post| - 1] == post[n];
      assert (s + post)[..|s + post| - 1] == s + post[..n];
      TrimEndPadding(s, post[..n]);
    } else {
      assert s + post == s;
    }
  }

  /** The ASCII part of `toLowerCase`: 'A'..'Z' to 'a'..'z', all else unchanged. */
  function LowerChar(c: char): char
  {
    if 'A' <= c <= 'Z' then (c as int + 32) as char else c
  }

  function UpperChar(c: char): char
  {
    if 'a' <= c <= 'z' then (c as int - 32) as char else c
  }

  function ToLowerCase(s: string): (r: string)
    ensures |r| == |s| && forall k :: 0 <= k < |s| ==> r[k] == LowerChar(s[k])
  {
    seq(|s|, k requires 0 <= k < |s| => LowerChar(s[k]))
  }

  function ToUpperCase(s: string): (r: string)
    ensures |r| == |s| && forall k :: 0 <= k < |s| ==> r[k] == UpperChar(s[k])
  {
    seq(|s|, k requires 0 <= k < |s| => UpperChar(s[k]))
  }

  /** Lower-casing forgets case: an upper-cased text lower-cases to the same text. */
  lemma LowerOfUpper(s: string)
    ensures ToLowerCase(ToUpperCase(s)) == ToLowerCase(s)
  {
    var a, b := ToLowerCase(ToUpperCase(s)), ToLowerCase(s);
    forall k | 0 <= k < |s| ensures a[k] == b[k] {
      var c := s[k];
      if 'a' <= c <= 'z' {
        assert UpperChar(c) as int == c as int - 32;
      }
    }
  }

  /** Upper-casing neither creates nor removes white space. */
  lemma UpperKeepsWhiteSpace(c: char)
    ensures IsWhiteSpace(UpperChar(c)) == IsWhiteSpace(c)
  {
    if 'a' <= c <= 'z' {
      assert 'A' <= UpperChar(c) <= 'Z';
    }
  }

  lemma {:induction false} TrimStartUpper(s: string)
    ensures TrimStart(ToUpperCase(s)) == ToUpperCase(TrimStart(s))
  {
    if |s| > 0 {
      UpperKeepsWhiteSpace(s[0]);
      if IsWhiteSpace(s[0]) {
        assert ToUpperCase(s)[1..] == ToUpperCase(s[1..]);
        TrimStartUpper(s[1..]);
      }
    }
  }

  lemma UpperPrefix(s: string, n: nat)
    requires n <= |s|
    ensures ToUpperCase(s)[..n] == ToUpperCase(s[..n])
  {
  }

  lemma {:induction false} TrimEndUpper(s: string)
    ensures TrimEnd(ToUpperCase(s)) == ToUpperCase(TrimEnd(s))
  {
    var u := ToUpperCase(s);
    if |s| > 0 {
      var n := |s| - 1;
      UpperKeepsWhiteSpace(s[n]);
      if IsWhiteSpace(s[n]) {
        UpperPrefix(s, n);
        TrimEndUpper(s[..n]);
        calc {
          TrimEnd(u);
          TrimEnd(u[..n]);
          TrimEnd(ToUpperCase(s[..n]));
          ToUpperCase(TrimEnd(s[..n]));
          ToUpperCase(TrimEnd(s));
        }
      }
    }
  }

  /** Trimming and upper-casing commute. */
  lemma TrimUpper(s: string)
    ensures Trim(ToUpperCase(s)) == ToUpperCase(Trim(s))
  {
    TrimStartUpper(s);
    TrimEndUpper(TrimStart(s));
  }

  /**
   * `s.replace(",", ".")` with a string pattern: only the first `from` is
   * replaced.
   */
  function ReplaceFirst(s: string, from: char, to: char): (r: string)
    ensures |r| == |s|
  {
    if s == [] then []
    else if s[0] == from then [to] + s[1..]
    else [s[0]] + ReplaceFirst(s[1..], from, to)
  }

  /** Index of the first `c` in `s`, or `|s|` when there is none. */
  function IndexOf(s: string, c: char): (k: nat)
    ensures k <= |s|
    ensures forall j :: 0 <= j < k ==> s[j] != c
    ensures k < |s| ==> s[k] == c
  {
    if s == [] then 0 else if s[0] == c then 0 else 1 + IndexOf(s[1..], c)
  }

  /** A text without `c` has no index of it. */
  lemma {:induction false} IndexOfAbsent(s: string, c: char)
    requires forall k :: 0 <= k < |s| ==> s[k] != c
    ensures IndexOf(s, c) == |s|
  {
    if s != [] {
      IndexOfAbsent(s[1..], c);
    }
  }

  /** The first `c` in `a + [c] + b` is the one after `a` when `a` has none. */
  lemma IndexOfAfter(a: string, c: char, b: string)
    requires forall k :: 0 <= k < |a| ==> a[k] != c
    ensures IndexOf(a + [c] + b, c) == |a|
  {
    var s := a + [c] + b;
    assert forall j :: 0 <= j < |a| ==> s[j] == a[j];
    assert s[|a|] == c;
  }

  /** Without a `from` there is nothing to replace. */
  lemma {:induction false} ReplaceFirstAbsent(s: string, from: char, to: char)
    requires forall k :: 0 <= k < |s| ==> s[k] != from
    ensures ReplaceFirst(s, from, to) == s
  {
    if s != [] {
      ReplaceFirstAbsent(s[1..], from, to);
    }
  }

  /** Replacing the first `from` when it comes right after `a`. */
  lemma {:induction false} ReplaceFirstAt(a: string, from: char, to: char, b: string)
    requires forall k :: 0 <= k < |a| ==> a[k] != from
    ensures ReplaceFirst(a + [from] + b, from, to) == a + [to] + b
  {
    if a == [] {
      assert a + [from] + b == [from] + b;
      assert ([from] + b)[1..] == b;
    } else {
      assert (a + [from] + b)[1..] == a[1..] + [from] + b;
      ReplaceFirstAt(a[1..], from, to, b);
      assert a + [to] + b == [a[0]] + (a[1..] + [to] + b);
    }
  }

  /**
   * `ReplaceFirst` changes exactly the first occurrence, when there is one,
   * and leaves a text without `from` alone.
   */
  lemma ReplaceFirstSpec(s: string, from: char, to: char)
    ensures var k := IndexOf(s, from);
      ReplaceFirst(s, from, to) == if k == |s| then s else s[..k] + [to] + s[k + 1..]
  {
    var k := IndexOf(s, from);
    if k == |s| {
      ReplaceFirstAbsent(s, from, to);
    } else {
      assert s == s[..k] + [from] + s[k + 1..];
      ReplaceFirstAt(s[..k], from, to, s[k + 1..]);
    }
  }


  /** An ASCII digit, what `\d` matches. */
  predicate IsDigit(c: char)
  {
    '0' <= c <= '9'
  }

  /** The characters `/[^\d.\-]/g` does not delete: ASCII digits, '.' and '-'. */
  predicate IsNumeric(c: char)
  {
    IsDigit(c) || c == '.' || c == '-'
  }

  /** `s.replace(/[^\d.\-]/g, "")`: keeps the numeric characters, in order. */
  function KeepNumeric(s: string): (r: string)
    ensures |r| <= |s|
    ensures forall k :: 0 <= k < |r| ==> IsNumeric(r[k])
  {
    if s == [] then []
    else if IsNumeric(s[0]) then [s[0]] + KeepNumeric(s[1..])
    else KeepNumeric(s[1..])
  }

  /** Deleting non-numeric characters from a numeric text deletes nothing. */
  lemma {:induction false} KeepNumericOfNumeric(s: string)
    requires forall k :: 0 <= k < |s| ==> IsNumeric(s[k])
    ensures KeepNumeric(s) == s
  {
    if s != [] {
      KeepNumericOfNumeric(s[1..]);
    }
  }

  /** A text without digits, '.' or '-' keeps nothing. */
  lemma {:induction false} KeepNumericNone(s: string)
    requires forall k :: 0 <= k < |s| ==> !IsNumeric(s[k])
    ensures KeepNumeric(s) == []
  {
    if s != [] {
      KeepNumericNone(s[1..]);
    }
  }
  /** Symbols after a numeric text are stripped away. */
  lemma KeepNumericDropsTail(num: string, junk: string)
    requires forall k :: 0 <= k < |num| ==> IsNumeric(num[k])
    requires forall k :: 0 <= k < |junk| ==> !IsNumeric(junk[k])
    ensures KeepNumeric(num + junk) == num
  {
    KeepNumericConcat(num, junk);
    KeepNumericNone(junk);
    KeepNumericOfNumeric(num);
  }


  /** The filter works piecewise: it commutes with concatenation. */
  lemma {:induction false} KeepNumericConcat(a: string, b: string)
    ensures KeepNumeric(a + b) == KeepNumeric(a) + KeepNumeric(b)
  {
    if a != [] {
      assert (a + b)[1..] == a[1..] + b;
      KeepNumericConcat(a[1..], b);
    } else {
      assert a + b == b;
    }
  }

  /**
   * `a.localeCompare(b)`, read as code-point lexicographic order:
   * -1 when `a` sorts first, 0 when equal, 1 when `b` sorts first.
   */
  function CompareStrings(a: string, b: string): (r: int)
    ensures -1 <= r <= 1
  {
    if a == [] && b == [] then 0
    else if a == [] then -1
    else if b == [] then 1
    else if a[0] < b[0] then -1
    else if a[0] > b[0] then 1
    else CompareStrings(a[1..], b[1..])
  }

  /** Lexicographic order stated directly: a common prefix, then a smaller character or the end of `a`. */
  ghost predicate LexLess(a: string, b: string)
  {
    exists k :: 0 <= k <= |a| && k <= |b| && a[..k] == b[..k] &&
      ((k == |a| && k < |b|) || (k < |a| && k < |b| && a[k] < b[k]))
  }

  /** `CompareStrings` reports equality exactly for equal texts. */
  lemma {:induction false} CompareStringsZero(a: string, b: string)
    ensures CompareStrings(a, b) == 0 <==> a == b
  {
    if a != [] && b != [] && a[0] == b[0] {
      CompareStringsZero(a[1..], b[1..]);
      assert a == [a[0]] + a[1..] && b == [b[0]] + b[1..];
    }
  }

  /** Swapping the operands negates the comparison. */
  lemma {:induction false} CompareStringsFlip(a: string, b: string)
    ensures CompareStrings(b, a) == -CompareStrings(a, b)
  {
    if a != [] && b != [] && a[0] == b[0] {
      CompareStringsFlip(a[1..], b[1..]);
    }
  }

  /** Lexicographic order on non-empty texts decided by the first characters, then the rests. */
  lemma LexLessConsForward(a: string, b: string)
    requires a != [] && b != [] && LexLess(a, b)
    ensures a[0] < b[0] || (a[0] == b[0] && LexLess(a[1..], b[1..]))
  {
    var k :| 0 <= k <= |a| && k <= |b| && a[..k] == b[..k] &&
      ((k == |a| && k < |b|) || (k < |a| && k < |b| && a[k] < b[k]));
    if k > 0 {
      assert a[..k][0] == b[..k][0];
      assert a[1..][..k - 1] == a[..k][1..] && b[1..][..k - 1] == b[..k][1..];
    }
  }

  lemma LexLessConsBackward(a: string, b: string)
    requires a != [] && b != []
    requires a[0] < b[0] || (a[0] == b[0] && LexLess(a[1..], b[1..]))
    ensures LexLess(a, b)
  {
    if a[0] < b[0] {
      assert a[..0] == b[..0];
    } else {
      var a', b' := a[1..], b[1..];
      var k :| 0 <= k <= |a'| && k <= |b'| && a'[..k] == b'[..k] &&
        ((k == |a'| && k < |b'|) || (k < |a'| && k < |b'| && a'[k] < b'[k]));
      assert a[..k + 1] == [a[0]] + a'[..k];
      assert b[..k + 1] == [b[0]] + b'[..k];
    }
  }

  /** The lexicographic order, one character at a time. */
  lemma LexLessCons(a: string, b: string)
    requires a != [] && b != []
    ensures LexLess(a, b) <==> a[0] < b[0] || (a[0] == b[0] && LexLess(a[1..], b[1..]))
  {
    if LexLess(a, b) {
      LexLessConsForward(a, b);
    }
    if a[0] < b[0] || (a[0] == b[0] && LexLess(a[1..], b[1..])) {
      LexLessConsBackward(a, b);
    }
  }


  /** `CompareStrings(a, b) < 0` is exactly lexicographic order. */
  lemma {:induction false} CompareStringsLess(a: string, b: string)
    ensures CompareStrings(a, b) < 0 <==> LexLess(a, b)
  {
    if a == [] && b == [] {
      assert !LexLess(a, b);
    } else if a == [] {
      assert a[..0] == b[..0];
    } else if b == [] {
      assert !LexLess(a, b);
    } else {
      LexLessCons(a, b);
      CompareStringsLess(a[1..], b[1..]);
    }
  }

  /** "Sorts no later than" is transitive. */
  lemma {:induction false} CompareStringsTransitive(a: string, b: string, c: string)
    requires CompareStrings(a, b) <= 0 && CompareStrings(b, c) <= 0
    ensures CompareStrings(a, c) <= 0
  {
    if a != [] && b != [] && c != [] && a[0] == b[0] == c[0] {
      CompareStringsTransitive(a[1..], b[1..], c[1..]);
    }
  }
}
