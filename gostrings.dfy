/**
 * The parts of Go's `strings` package, of its string ordering and of its
 * UTF-8 conversion `[]byte(s)` that the modelled code relies on.
 * A Go string is modelled as a sequence of Unicode scalar values.
 */
module GoStrings {

  /** strings.HasPrefix */
  predicate HasPrefix(s: string, prefix: string) {
    |prefix| <= |s| && s[..|prefix|] == prefix
  }

  /** strings.HasSuffix */
  predicate HasSuffix(s: string, suffix: string) {
    |suffix| <= |s| && s[|s| - |suffix|..] == suffix
  }

  /** A text starting with a + b starts with a. */
  lemma {:induction false} HasPrefixOfLonger(s: string, a: string, b: string)
    requires HasPrefix(s, a + b)
    ensures HasPrefix(s, a)
  {
    assert s[..|a|] == s[..|a + b|][..|a|];
  }

  /** strings.TrimSuffix */
  function TrimSuffix(s: string, suffix: string): (r: string)
    ensures HasSuffix(s, suffix) ==> r + suffix == s
    ensures !HasSuffix(s, suffix) ==> r == s
  {
    if HasSuffix(s, suffix) then s[..|s| - |suffix|] else s
  }

  /** strings.Contains: `sub` occurs somewhere in `s` */
  predicate Contains(s: string, sub: string) {
    exists i | 0 <= i <= |s| - |sub| :: OccursAt(s, sub, i)
  }

  /** `sub` occurs in `s` starting at index `i` */
  predicate OccursAt(s: string, sub: string, i: nat) {
    i + |sub| <= |s| && s[i..i + |sub|] == sub
  }

  /** An occurrence inside a part is an occurrence in any text built around it. */
  lemma {:induction false} ContainsInContext(a: string, b: string, c: string, sub: string)
    requires Contains(b, sub)
    ensures Contains(a + b + c, sub)
  {
    var i :| 0 <= i <= |b| - |sub| && OccursAt(b, sub, i);
    var s := a + b + c;
    assert s[|a| + i..|a| + i + |sub|] == b[i..i + |sub|];
    assert OccursAt(s, sub, |a| + i);
  }

  /** strings.LastIndexAny: the index of the last character of `s` that is in `chars`, or -1 */
  function LastIndexAny(s: string, chars: set<char>): (r: int)
    ensures -1 <= r < |s|
    ensures r >= 0 ==> s[r] in chars
    ensures forall k | r < k < |s| :: s[k] !in chars
  {
    if |s| == 0 then -1
    else if s[|s| - 1] in chars then |s| - 1
    else LastIndexAny(s[..|s| - 1], chars)
  }

  // ---------------------------------------------------------------------
  // strings.Split and strings.Join with a one-character separator
  // ---------------------------------------------------------------------

  /** strings.Split(s, string(sep)): n separators give n + 1 parts; Split("", sep) == [""] */
  function Split(s: string, sep: char): (parts: seq<string>)
    ensures |parts| >= 1
    decreases |s|
  {
    if |s| == 0 then [""]
    else
      var rest := Split(s[1..], sep);
      if s[0] == sep then [""] + rest else [[s[0]] + rest[0]] + rest[1..]
  }

  /** strings.Join(parts, string(sep)) */
  function Join(parts: seq<string>, sep: char): string
    decreases |parts|
  {
    if |parts| == 0 then ""
    else if |parts| == 1 then parts[0]
    else parts[0] + [sep] + Join(parts[1..], sep)
  }

  /** No part produced by Split contains the separator. */
  lemma {:induction false} SplitPartsHaveNoSeparator(s: string, sep: char)
    ensures forall k | 0 <= k < |Split(s, sep)| :: sep !in Split(s, sep)[k]
    decreases |s|
  {
    if |s| > 0 {
      SplitPartsHaveNoSeparator(s[1..], sep);
    }
  }

  /** Joining what Split produced gives back the text. */
  lemma {:induction false} JoinSplit(s: string, sep: char)
    ensures Join(Split(s, sep), sep) == s
    decreases |s|
  {
    if |s| > 0 {
      var rest := Split(s[1..], sep);
      JoinSplit(s[1..], sep);
      if s[0] == sep {
        assert Split(s, sep) == [""] + rest;
        if |rest| == 1 {
          assert Join([""] + rest, sep) == "" + [sep] + Join(rest, sep);
        } else {
          assert ([""] + rest)[1..] == rest;
        }
      } else {
        var parts := Split(s, sep);
        assert parts == [[s[0]] + rest[0]] + rest[1..];
        if |rest| == 1 {
          assert Join(rest, sep) == rest[0];
        } else {
          assert parts[1..] == rest[1..];
          assert Join(rest, sep) == rest[0] + [sep] + Join(rest[1..], sep);
        }
      }
    }
  }

  /** Text that does not contain the separator splits as its own first part. */
  lemma {:induction false} SplitPrepend(a: string, t: string, sep: char)
    requires sep !in a
    ensures Split(a + t, sep) == [a + Split(t, sep)[0]] + Split(t, sep)[1..]
    decreases |a|
  {
    if |a| > 0 {
      var st := Split(t, sep);
      var rest := Split(a[1..] + t, sep);
      assert rest == [a[1..] + st[0]] + st[1..] by {
        SplitPrepend(a[1..], t, sep);
      }
      assert Split(a + t, sep) == [[a[0]] + rest[0]] + rest[1..] by {
        assert (a + t)[0] == a[0] != sep;
        assert (a + t)[1..] == a[1..] + t;
      }
      assert rest[0] == a[1..] + st[0] && rest[1..] == st[1..];
      assert [a[0]] + (a[1..] + st[0]) == a + st[0];
    } else {
      assert a + t == t;
      var st := Split(t, sep);
      assert st == [st[0]] + st[1..];
      assert a + st[0] == st[0];
    }
  }

  /** Split after a part and a separator. */
  lemma {:induction false} SplitPartThenSeparator(a: string, t: string, sep: char)
    requires sep !in a
    ensures Split(a + [sep] + t, sep) == [a] + Split(t, sep)
  {
    SplitPrepend(a, [sep] + t, sep);
    assert a + [sep] + t == a + ([sep] + t);
    assert ([sep] + t)[1..] == t;
    var st := Split([sep] + t, sep);
    assert st == [""] + Split(t, sep);
    assert st[0] == "" && st[1..] == Split(t, sep);
    assert a + st[0] == a;
  }

  /** Splitting joined parts that do not contain the separator gives the parts back. */
  lemma {:induction false} SplitJoin(parts: seq<string>, sep: char)
    requires |parts| >= 1
    requires forall k | 0 <= k < |parts| :: sep !in parts[k]
    ensures Split(Join(parts, sep), sep) == parts
    decreases |parts|
  {
    if |parts| == 1 {
      SplitPrepend(parts[0], "", sep);
      assert parts[0] + "" == parts[0];
    } else {
      SplitJoin(parts[1..], sep);
      SplitPartThenSeparator(parts[0], Join(parts[1..], sep), sep);
      assert [parts[0]] + parts[1..] == parts;
    }
  }

  /** Joining two non-empty lists puts one separator between their joins. */
  lemma {:induction false} JoinAppend(a: seq<string>, b: seq<string>, sep: char)
    requires |a| >= 1 && |b| >= 1
    ensures Join(a + b, sep) == Join(a, sep) + [sep] + Join(b, sep)
    decreases |a|
  {
    if |a| == 1 {
      assert (a + b)[1..] == b;
    } else {
      JoinAppend(a[1..], b, sep);
      assert (a + b)[1..] == a[1..] + b;
    }
  }

  // ---------------------------------------------------------------------
  // strings.TrimSpace
  // ---------------------------------------------------------------------

  /** unicode.IsSpace */
  predicate IsSpace(c: char) {
    c == '\t' || c == '\n' || c == '\U{000B}' || c == '\U{000C}' || c == '\r' || c == ' '
    || c == '\U{0085}' || c == '\U{00A0}' || c == '\U{1680}'
    || ('\U{2000}' <= c <= '\U{200A}')
    || c == '\U{2028}' || c == '\U{2029}' || c == '\U{202F}' || c == '\U{205F}' || c == '\U{3000}'
  }

  /** indexFunc(s, f, false) from `i` on: the first position not satisfying `f`, or |s| */
  function FirstNot(s: string, f: char -> bool, i: nat): (j: nat)
    requires i <= |s|
    ensures i <= j <= |s|
    ensures forall k | i <= k < j :: f(s[k])
    ensures j == |s| || !f(s[j])
    decreases |s| - i
  {
    if i < |s| && f(s[i]) then FirstNot(s, f, i + 1) else i
  }

  /** lastIndexFunc(s, f, false) below `j`, plus one: the end of the last character not satisfying `f`, or 0 */
  function LastNot(s: string, f: char -> bool, j: nat): (i: nat)
    requires j <= |s|
    ensures i <= j
    ensures forall k | i <= k < j :: f(s[k])
    ensures i == 0 || !f(s[i - 1])
  {
    if j > 0 && f(s[j - 1]) then LastNot(s, f, j - 1) else j
  }

  /** strings.TrimLeftFunc */
  function TrimLeftFunc(s: string, f: char -> bool): (r: string)
    ensures |r| <= |s| && r == s[|s| - |r|..]
    ensures forall k | 0 <= k < |s| - |r| :: f(s[k])
    ensures |r| > 0 ==> !f(r[0])
  {
    s[FirstNot(s, f, 0)..]
  }

  /** strings.TrimRightFunc */
  function TrimRightFunc(s: string, f: char -> bool): (r: string)
    ensures |r| <= |s| && r == s[..|r|]
    ensures forall k | |r| <= k < |s| :: f(s[k])
    ensures |r| > 0 ==> !f(r[|r| - 1])
  {
    s[..LastNot(s, f, |s|)]
  }

  /** strings.TrimFunc: the longest slice of `s` with no character satisfying `f` at either end */
  function TrimFunc(s: string, f: char -> bool): (r: string)
    ensures |r| == 0 || (!f(r[0]) && !f(r[|r| - 1]))
    ensures TrimmedAt(s, r, FirstNot(s, f, 0), f)
  {
    var left := TrimLeftFunc(s, f);
    var r := TrimRightFunc(left, f);
    TrimmedBetween(s, left, r, f);
    r
  }

  /** Trimming the front, then the back, leaves a slice with trimmed characters around it. */
  lemma {:induction false} TrimmedBetween(s: string, left: string, r: string, f: char -> bool)
    requires |left| <= |s| && left == s[|s| - |left|..]
    requires forall k | 0 <= k < |s| - |left| :: f(s[k])
    requires |r| <= |left| && r == left[..|r|]
    requires forall k | |r| <= k < |left| :: f(left[k])
    requires |left| > 0 ==> !f(left[0])
    requires |r| > 0 ==> !f(r[|r| - 1])
    ensures TrimmedAt(s, r, |s| - |left|, f)
    ensures |r| == 0 || (!f(r[0]) && !f(r[|r| - 1]))
  {
    var i := |s| - |left|;
    if |r| > 0 {
      assert r[0] == left[0];
    }
    assert r == s[i..i + |r|];
    forall k | i + |r| <= k < |s|
      ensures f(s[k])
    {
      assert s[k] == left[k - i];
    }
  }

  /** `r` is the slice of `s` at `i`, and every character around it satisfies `f` */
  predicate TrimmedAt(s: string, r: string, i: nat, f: char -> bool) {
    && i + |r| <= |s|
    && r == s[i..i + |r|]
    && (forall k | 0 <= k < i :: f(s[k]))
    && (forall k | i + |r| <= k < |s| :: f(s[k]))
  }

  /** strings.TrimSpace, which Go defines as TrimFunc with unicode.IsSpace */
  function TrimSpace(s: string): (r: string)
    ensures |r| == 0 || (!IsSpace(r[0]) && !IsSpace(r[|r| - 1]))
    ensures TrimmedAt(s, r, FirstNot(s, IsSpace, 0), IsSpace)
  {
    TrimFunc(s, IsSpace)
  }

  // ---------------------------------------------------------------------
  // Go's `<` on strings
  // ---------------------------------------------------------------------

  /**
   * Go compares strings byte by byte; UTF-8 preserves the order of code
   * points, so this is the lexicographic order on characters.
   */
  predicate Less(a: string, b: string)
    decreases |a|
  {
    if |a| == 0 then |b| > 0
    else if |b| == 0 then false
    else if a[0] != b[0] then a[0] < b[0]
    else Less(a[1..], b[1..])
  }

  lemma {:induction false} LessIrreflexive(a: string)
    ensures !Less(a, a)
    decreases |a|
  {
    if |a| > 0 {
      LessIrreflexive(a[1..]);
    }
  }

  lemma {:induction false} LessTransitive(a: string, b: string, c: string)
    requires Less(a, b) && Less(b, c)
    ensures Less(a, c)
    decreases |a|
  {
    if |a| > 0 && a[0] == b[0] && b[0] == c[0] {
      LessTransitive(a[1..], b[1..], c[1..]);
    }
  }

  /** Any two distinct strings are ordered one way, and never both ways. */
  lemma {:induction false} LessTrichotomy(a: string, b: string)
    ensures a == b || Less(a, b) || Less(b, a)
    ensures !(Less(a, b) && Less(b, a))
    decreases |a|
  {
    if |a| > 0 && |b| > 0 && a[0] == b[0] {
      LessTrichotomy(a[1..], b[1..]);
      if a[1..] == b[1..] {
        assert a == [a[0]] + a[1..] && b == [b[0]] + b[1..];
      }
    }
  }

  /** a <= b and b <= c give a <= c, where x <= y is written !Less(y, x) */
  lemma {:induction false} NotLessTransitive(a: string, b: string, c: string)
    requires !Less(b, a) && !Less(c, b)
    ensures !Less(c, a)
  {
    if Less(c, a) {
      LessTrichotomy(a, b);
      LessTrichotomy(b, c);
      if Less(a, b) {
        LessTransitive(c, a, b);
      }
    }
  }

  /** An occurrence inside one part is an occurrence in the joined text. */
  lemma {:induction false} ContainsInJoin(parts: seq<string>, k: nat, sep: char, sub: string)
    requires k < |parts| && Contains(parts[k], sub)
    ensures Contains(Join(parts, sep), sub)
    decreases |parts|
  {
    if |parts| == 1 {
      ContainsInContext("", parts[0], "", sub);
      assert "" + parts[0] + "" == parts[0];
    } else if k == 0 {
      ContainsInContext("", parts[0], [sep] + Join(parts[1..], sep), sub);
      assert "" + parts[0] + ([sep] + Join(parts[1..], sep)) == Join(parts, sep);
    } else {
      ContainsInJoin(parts[1..], k - 1, sep, sub);
      ContainsInContext(parts[0] + [sep], Join(parts[1..], sep), "", sub);
      assert parts[0] + [sep] + Join(parts[1..], sep) + "" == Join(parts, sep);
    }
  }

  // ---------------------------------------------------------------------
  // []byte(s): UTF-8 encoding
  // ---------------------------------------------------------------------

  type byte = b: int | 0 <= b < 256

  /** The UTF-8 encoding of one Unicode scalar value (section 3 of RFC 3629). */
  function EncodeRune(c: char): (bs: seq<byte>)
    ensures 1 <= |bs| <= 4
  {
    var n := c as int;
    if n < 0x80 then [n]
    else if n < 0x800 then [0xC0 + n / 0x40, 0x80 + n % 0x40]
    else if n < 0x10000 then [0xE0 + n / 0x1000, 0x80 + (n / 0x40) % 0x40, 0x80 + n % 0x40]
    else [0xF0 + n / 0x40000, 0x80 + (n / 0x1000) % 0x40, 0x80 + (n / 0x40) % 0x40, 0x80 + n % 0x40]
  }

  /** []byte(s); its length is Go's len(s) */
  function Utf8(s: string): (bs: seq<byte>)
    ensures |s| <= |bs| <= 4 * |s|
    ensures (forall k | 0 <= k < |s| :: s[k] as int < 0x80) ==> |bs| == |s|
  {
    if |s| == 0 then [] else Utf8(s[..|s| - 1]) + EncodeRune(s[|s| - 1])
  }
}
