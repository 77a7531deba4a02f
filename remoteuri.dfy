/**
 * The URI that opens a folder in a dev container
 * (internal/pkg/devcontainers/remoteuri.go): the local path in lowercase
 * hex, followed by the folder the container mounts the workspace at.
 */
module RemoteUri {
  import opened Wrappers
  import opened Errors
  import opened GoStrings
  import opened Fs
  import FilePath

  // ---------------------------------------------------------------------
  // Hex encoding (encoding/hex)
  // ---------------------------------------------------------------------

  /** A digit of hex's lowercase table "0123456789abcdef" */
  predicate IsLowerHexDigit(c: char) {
    '0' <= c <= '9' || 'a' <= c <= 'f'
  }

  /** The lowercase digit of a nibble: entry `n` of the table */
  function HexDigit(n: nat): (c: char)
    requires n < 16
    ensures IsLowerHexDigit(c)
  {
    if n < 10 then ('0' as int + n) as char else ('a' as int + n - 10) as char
  }

  /** The value of a hex digit, in either case, as hex.DecodeString reads it */
  function HexValue(c: char): (r: Option<nat>)
    ensures r.Some? ==> r.value < 16
  {
    if '0' <= c <= '9' then Some(c as int - '0' as int)
    else if 'a' <= c <= 'f' then Some(c as int - 'a' as int + 10)
    else if 'A' <= c <= 'F' then Some(c as int - 'A' as int + 10)
    else None
  }

  lemma {:induction false} HexValueOfDigit(n: nat)
    requires n < 16
    ensures HexValue(HexDigit(n)) == Some(n)
  {
  }

  /** hex.EncodeToString: two lowercase digits per byte, high nibble first */
  function HexEncode(bs: seq<byte>): (r: string)
    ensures |r| == 2 * |bs|
    ensures forall k | 0 <= k < |r| :: IsLowerHexDigit(r[k])
  {
    if bs == [] then ""
    else [HexDigit(bs[0] / 16), HexDigit(bs[0] % 16)] + HexEncode(bs[1..])
  }

  /** Byte i becomes digits 2i (high nibble) and 2i + 1 (low nibble). */
  lemma {:induction false} HexEncodeDigits(bs: seq<byte>)
    ensures forall i | 0 <= i < |bs| ::
              HexEncode(bs)[2 * i] == HexDigit(bs[i] / 16) && HexEncode(bs)[2 * i + 1] == HexDigit(bs[i] % 16)
    decreases |bs|
  {
    if bs != [] {
      var rest := HexEncode(bs[1..]);
      HexEncodeDigits(bs[1..]);
      assert HexEncode(bs)[2..] == rest;
      forall i | 1 <= i < |bs|
        ensures HexEncode(bs)[2 * i] == HexDigit(bs[i] / 16) && HexEncode(bs)[2 * i + 1] == HexDigit(bs[i] % 16)
      {
        assert HexEncode(bs)[2 * i] == rest[2 * (i - 1)];
        assert HexEncode(bs)[2 * i + 1] == rest[2 * (i - 1) + 1];
      }
    }
  }

  /** hex.DecodeString: None for an odd length or a character that is not a digit */
  function HexDecode(s: string): (r: Option<seq<byte>>)
    ensures r.Some? ==> 2 * |r.value| == |s|
    decreases |s|
  {
    if s == [] then Some([])
    else if |s| == 1 then None
    else
      match (HexValue(s[0]), HexValue(s[1]))
      case (Some(hi), Some(lo)) =>
        (match HexDecode(s[2..])
         case Some(rest) => Some([hi * 16 + lo] + rest)
         case None => None)
      case _ => None
  }

  /** The two digits of a byte decode to that byte. */
  lemma {:induction false} HexDecodePair(n: byte, rest: string)
    ensures HexDecode([HexDigit(n / 16), HexDigit(n % 16)] + rest)
            == match HexDecode(rest) case Some(r) => Some([n] + r) case None => None
  {
    var s := [HexDigit(n / 16), HexDigit(n % 16)] + rest;
    HexValueOfDigit(n / 16);
    HexValueOfDigit(n % 16);
    assert s[2..] == rest;
  }

  /** Decoding undoes encoding. */
  lemma {:induction false} HexRoundTrip(bs: seq<byte>)
    ensures HexDecode(HexEncode(bs)) == Some(bs)
    decreases |bs|
  {
    if bs != [] {
      HexDecodePair(bs[0], HexEncode(bs[1..]));
      HexRoundTrip(bs[1..]);
      assert bs == [bs[0]] + bs[1..];
    }
  }

  /** Distinct byte strings have distinct encodings. */
  lemma {:induction false} HexEncodeInjective(a: seq<byte>, b: seq<byte>)
    requires HexEncode(a) == HexEncode(b)
    ensures a == b
  {
    HexRoundTrip(a);
    HexRoundTrip(b);
  }

  /** convertToHexString: the hex encoding of the string's UTF-8 bytes */
  function ConvertToHexString(input: string): (r: string)
    ensures 2 * |input| <= |r| <= 8 * |input|
    ensures HexDecode(r) == Some(Utf8(input))
  {
    HexRoundTrip(Utf8(input));
    HexEncode(Utf8(input))
  }

  /** Strings with different UTF-8 bytes get different hex strings. */
  lemma {:induction false} ConvertToHexStringInjective(a: string, b: string)
    requires ConvertToHexString(a) == ConvertToHexString(b)
    ensures Utf8(a) == Utf8(b)
  {
  }

  /** An ASCII character becomes the two digits of its code. */
  lemma {:induction false} ConvertAsciiString(input: string)
    requires forall k | 0 <= k < |input| :: input[k] as int < 0x80
    ensures |ConvertToHexString(input)| == 2 * |input|
    ensures forall k | 0 <= k < |input| :: ConvertToHexString(input)[2 * k] == HexDigit(input[k] as int / 16)
                                          && ConvertToHexString(input)[2 * k + 1] == HexDigit(input[k] as int % 16)
  {
    AsciiUtf8(input);
    HexEncodeDigits(Utf8(input));
  }

  lemma {:induction false} AsciiUtf8(s: string)
    requires forall k | 0 <= k < |s| :: s[k] as int < 0x80
    ensures |Utf8(s)| == |s| && forall k | 0 <= k < |s| :: Utf8(s)[k] == s[k] as int
    decreases |s|
  {
    if |s| > 0 {
      AsciiUtf8(s[..|s| - 1]);
    }
  }

  // ---------------------------------------------------------------------
  // The workspaceFolder extractor: (?m)^\s*"workspaceFolder"\s*:\s*"(.*)"
  // ---------------------------------------------------------------------

  /** RE2's \s: tab, newline, form feed, carriage return and space */
  predicate IsRegexSpace(c: char) {
    c == '\t' || c == '\n' || c == '\U{000C}' || c == '\r' || c == ' '
  }

  /** The key the pattern looks for, quotes included */
  const Key: string := "\"workspaceFolder\""

  /** Where a greedy \s* starting at `i` stops */
  function SkipSpace(text: string, i: nat): (j: nat)
    requires i <= |text|
    ensures i <= j <= |text|
    ensures forall k | i <= k < j :: IsRegexSpace(text[k])
    ensures j == |text| || !IsRegexSpace(text[j])
    decreases |text| - i
  {
    if i < |text| && IsRegexSpace(text[i]) then SkipSpace(text, i + 1) else i
  }

  /** Where the line containing position `i` ends: the next newline, or the end */
  function LineEnd(text: string, i: nat): (e: nat)
    requires i <= |text|
    ensures i <= e <= |text|
    ensures forall k | i <= k < e :: text[k] != '\n'
    ensures e == |text| || text[e] == '\n'
    decreases |text| - i
  {
    if i < |text| && text[i] != '\n' then LineEnd(text, i + 1) else i
  }

  /** Where (?m)^ matches: the start of the text or just after a newline */
  predicate LineStart(text: string, p: nat) {
    p <= |text| && (p == 0 || text[p - 1] == '\n')
  }

  /** \s*:\s*" after the key: the position just after the opening quote */
  function ValueStart(text: string, k: nat): (c: Option<nat>)
    requires k <= |text|
    ensures c.Some? ==> k < c.value <= |text| && text[c.value - 1] == '"'
  {
    var colon := SkipSpace(text, k);
    if colon == |text| || text[colon] != ':' then None
    else
      var open := SkipSpace(text, colon + 1);
      if open == |text| || text[open] != '"' then None else Some(open + 1)
  }

  /**
   * (.*)" from `c`: `.` matches anything but a newline and `*` is greedy,
   * so the capture runs to the last quote before the end of the line.
   */
  function Capture(text: string, c: nat): (r: Option<string>)
    requires c <= |text|
    ensures r.None? <==> forall k | c <= k < LineEnd(text, c) :: text[k] != '"'
    ensures r.Some? ==> var v := r.value;
              && c + |v| < LineEnd(text, c)
              && text[c..c + |v|] == v
              && text[c + |v|] == '"'
              && (forall k | c + |v| < k < LineEnd(text, c) :: text[k] != '"')
              && '\n' !in v
  {
    var e := LineEnd(text, c);
    var line := text[c..e];
    var close := LastIndexAny(line, {'"'});
    if close < 0 then
      assert forall k | c <= k < e :: text[k] == line[k - c];
      None
    else
      assert forall k | c <= k < e :: text[k] == line[k - c];
      Some(line[..close])
  }

  /**
   * The capture of a match attempt at `p`. Each \s* is greedy and is
   * followed by a character it cannot match, so only `(.*)` has a choice.
   */
  function MatchAt(text: string, p: nat): (r: Option<string>)
    requires p <= |text|
    ensures r.Some? ==> '\n' !in r.value
  {
    MatchKeyAt(text, SkipSpace(text, p))
  }

  /** The rest of the attempt once the leading white space is skipped: the key, `\s*:\s*"` and the capture */
  function MatchKeyAt(text: string, q: nat): (r: Option<string>)
    requires q <= |text|
    ensures r.Some? ==> OccursAt(text, Key, q) && '\n' !in r.value
  {
    if !OccursAt(text, Key, q) then None
    else
      match ValueStart(text, q + |Key|)
      case None => None
      case Some(c) => Capture(text, c)
  }

  /** The attempt at position `i`: (?m)^ allows a match only at a line start */
  function Attempt(text: string, i: nat): (r: Option<string>)
    ensures r.Some? ==> '\n' !in r.value
  {
    if i <= |text| && LineStart(text, i) then MatchAt(text, i) else None
  }

  /** The attempts at every position of `text` */
  function Attempts(text: string): nat -> Option<string> {
    (i: nat) => Attempt(text, i)
  }

  /** The first attempt at or after `p` (up to `n`) that succeeds: a leftmost match */
  function FirstFrom(attempt: nat -> Option<string>, p: nat, n: nat): Option<string>
    requires p <= n
    decreases n - p
  {
    if attempt(p).Some? then attempt(p)
    else if p == n then None
    else FirstFrom(attempt, p + 1, n)
  }

  /** FirstFrom fails iff every attempt from `p` to `n` fails. */
  lemma {:induction false} FirstFromNone(attempt: nat -> Option<string>, p: nat, n: nat)
    requires p <= n
    ensures FirstFrom(attempt, p, n).None? <==> forall i | p <= i <= n :: attempt(i).None?
    decreases n - p
  {
    if attempt(p).None? && p < n {
      FirstFromNone(attempt, p + 1, n);
    }
  }

  /** `i` is the first successful attempt at or after `p` */
  predicate IsFirstSuccess(attempt: nat -> Option<string>, p: nat, i: nat) {
    p <= i && attempt(i).Some? && forall j | p <= j < i :: attempt(j).None?
  }

  /** What FirstFrom finds is the first successful attempt. */
  lemma {:induction false} FirstFromFirst(attempt: nat -> Option<string>, p: nat, n: nat)
    requires p <= n && FirstFrom(attempt, p, n).Some?
    ensures exists i: nat | i <= n :: IsFirstSuccess(attempt, p, i) && attempt(i) == FirstFrom(attempt, p, n)
    decreases n - p
  {
    if attempt(p).Some? {
      assert IsFirstSuccess(attempt, p, p);
    } else {
      FirstFromFirst(attempt, p + 1, n);
      var i: nat :| i <= n && IsFirstSuccess(attempt, p + 1, i) && attempt(i) == FirstFrom(attempt, p + 1, n);
      assert IsFirstSuccess(attempt, p, i);
    }
  }

  /**
   * When every attempt before `p` fails or gives what the attempt at `p`
   * gives, and that one succeeds, FirstFrom finds it.
   */
  lemma {:induction false} FirstFromReaches(attempt: nat -> Option<string>, i: nat, p: nat, n: nat)
    requires i <= p <= n && attempt(p).Some?
    requires forall j | i <= j < p :: attempt(j).None? || attempt(j) == attempt(p)
    ensures FirstFrom(attempt, i, n) == attempt(p)
    decreases p - i
  {
    if attempt(i).None? {
      FirstFromReaches(attempt, i + 1, p, n);
    }
  }

  /** The leftmost match in `text` */
  function FindMatch(text: string): (r: Option<string>)
    ensures r.Some? ==> '\n' !in r.value
  {
    var attempt := Attempts(text);
    var r := FirstFrom(attempt, 0, |text|);
    if r.Some? then
      FirstFromFirst(attempt, 0, |text|);
      r
    else r
  }

  /** getWorkspaceMountPathFromDevcontainerDefinition: the capture, or "" without a match */
  function WorkspaceFolderFromDefinition(definition: string): (r: string)
    ensures '\n' !in r
  {
    match FindMatch(definition)
    case Some(v) => v
    case None => ""
  }

  /**
   * A match needs the key as the first thing after white space at a line
   * start, then a colon and an opening quote; the captured value is
   * followed by a quote and the rest of its line holds no other quote.
   */
  lemma {:induction false} MatchShape(text: string, p: nat)
    requires p <= |text| && MatchAt(text, p).Some?
    ensures var q := SkipSpace(text, p);
            && OccursAt(text, Key, q)
            && exists c | q + |Key| < c <= |text| :: QuotedValueAt(text, c, MatchAt(text, p).value)
  {
    MatchKeyAtShape(text, SkipSpace(text, p));
  }

  lemma {:induction false} MatchKeyAtShape(text: string, q: nat)
    requires q <= |text| && MatchKeyAt(text, q).Some?
    ensures exists c | q + |Key| < c <= |text| :: QuotedValueAt(text, c, MatchKeyAt(text, q).value)
  {
    var c := ValueStart(text, q + |Key|).value;
    assert MatchKeyAt(text, q) == Capture(text, c);
    CaptureShape(text, c);
  }

  lemma {:induction false} CaptureShape(text: string, c: nat)
    requires 0 < c <= |text| && text[c - 1] == '"' && Capture(text, c).Some?
    ensures QuotedValueAt(text, c, Capture(text, c).value)
  {
  }

  /**
   * `v` is captured right after the quote before `c`, is closed by a quote
   * on the same line, and no quote follows that one on the line.
   */
  predicate QuotedValueAt(text: string, c: nat, v: string) {
    && 0 < c <= |text|
    && c + |v| < LineEnd(text, c)
    && text[c - 1] == '"'
    && text[c..c + |v|] == v
    && text[c + |v|] == '"'
    && forall k | c + |v| < k < LineEnd(text, c) :: text[k] != '"'
  }

  /** Without the key anywhere in the definition, the result is "". */
  lemma {:induction false} NoKeyNoValue(definition: string)
    requires !Contains(definition, Key)
    ensures WorkspaceFolderFromDefinition(definition) == ""
  {
    forall i | 0 <= i <= |definition| && LineStart(definition, i) ensures MatchAt(definition, i).None? {
      var q := SkipSpace(definition, i);
      assert !OccursAt(definition, Key, q);
    }
    FirstFromNone(Attempts(definition), 0, |definition|);
  }

  /**
   * When no line has the key right after its leading white space (a key
   * behind `//` for one), the result is "".
   */
  lemma {:induction false} KeyNotLeadingNoValue(definition: string)
    requires forall i | 0 <= i <= |definition| && LineStart(definition, i) :: !OccursAt(definition, Key, SkipSpace(definition, i))
    ensures WorkspaceFolderFromDefinition(definition) == ""
  {
    var attempt := Attempts(definition);
    forall i | 0 <= i <= |definition| ensures attempt(i).None? {
      if LineStart(definition, i) {
        assert !OccursAt(definition, Key, SkipSpace(definition, i));
      }
    }
    FirstFromNone(attempt, 0, |definition|);
  }

  /** A commented key line: after the indentation comes `/`, which the pattern cannot skip. */
  lemma {:induction false} CommentedLineDoesNotMatch(definition: string, p: nat)
    requires LineStart(definition, p)
    requires SkipSpace(definition, p) < |definition| && definition[SkipSpace(definition, p)] == '/'
    ensures MatchAt(definition, p).None?
  {
  }

  /**
   * At `s` no key starts that is followed by `\s*:\s*"` and a value closed
   * by a quote on its line: an attempt whose leading white space ends at
   * `s` fails.
   */
  predicate NoKeyValueAt(text: string, s: nat)
    requires s <= |text|
  {
    || !OccursAt(text, Key, s)
    || ValueStart(text, s + |Key|).None?
    || forall k | ValueStart(text, s + |Key|).value <= k < LineEnd(text, ValueStart(text, s + |Key|).value) :: text[k] != '"'
  }

  /**
   * The first line whose leading white space leads to the key, followed by
   * `\s*:\s*"` and a value closed by a quote on the value's line, gives
   * the result: the value up to the line's last quote, whatever quotes it
   * holds. Earlier lines may hold the key anywhere but right after their
   * leading white space (behind `//` for one), or hold it there without a
   * quoted value after it.
   */
  lemma {:induction false} KeyLineValue(text: string, p: nat, q: nat, c: nat, v: nat, e: nat)
    requires LineStart(text, p) && p <= q <= |text|
    requires forall k | p <= k < q :: IsRegexSpace(text[k])
    requires forall j | 0 <= j < p && LineStart(text, j) && SkipSpace(text, j) < p :: NoKeyValueAt(text, SkipSpace(text, j))
    requires OccursAt(text, Key, q) && ValueStart(text, q + |Key|) == Some(c)
    requires c <= v < e <= |text|
    requires text[v] == '"' && forall k | v < k < e :: text[k] != '"'
    requires forall k | c <= k < e :: text[k] != '\n'
    requires e == |text| || text[e] == '\n'
    ensures WorkspaceFolderFromDefinition(text) == text[c..v]
  {
    var attempt := Attempts(text);
    KeyLineAttempt(text, p, q, c, v, e);
    EarlierAttempts(text, p, q);
    assert forall j | 0 <= j < p :: attempt(j).None? || attempt(j) == attempt(p);
    FirstFromReaches(attempt, 0, p, |text|);
  }

  /** The attempt at the key line's start captures the value. */
  lemma {:induction false} KeyLineAttempt(text: string, p: nat, q: nat, c: nat, v: nat, e: nat)
    requires LineStart(text, p) && p <= q <= |text|
    requires forall k | p <= k < q :: IsRegexSpace(text[k])
    requires OccursAt(text, Key, q) && ValueStart(text, q + |Key|) == Some(c)
    requires c <= v < e <= |text|
    requires text[v] == '"' && forall k | v < k < e :: text[k] != '"'
    requires forall k | c <= k < e :: text[k] != '\n'
    requires e == |text| || text[e] == '\n'
    ensures Attempt(text, p) == Some(text[c..v])
  {
    KeyIsNotSpace(text, q);
    SkipSpaceOver(text, p, q);
    CaptureToLastQuote(text, c, v, e);
  }

  /**
   * A commented key line above a live one with no space around the colon:
   * the live line's value is the result, whatever the commented line held.
   */
  lemma {:induction false} CommentedThenLiveKey(old_: string, value: string)
    requires '\n' !in old_ && '\n' !in value
    ensures var commented := "//" + Key + ": \"" + old_ + "\"";
            WorkspaceFolderFromDefinition(commented + "\n" + Key + ":\"" + value + "\"") == value
  {
    var commented := "//" + Key + ": \"" + old_ + "\"";
    assert commented[0] == '/' && '\n' !in commented;
    var text := commented + "\n" + Key + ":\"" + value + "\"";
    var p := |commented| + 1;
    var c := p + |Key| + 2;
    SecondLineShape(commented, value);
    assert text[..|commented|] == commented;
    SlashLineStart(commented, text);
    KeyLineValue(text, p, p, c, c + |value|, c + |value| + 1);
  }

  /**
   * A key line whose value is not a string (`"workspaceFolder": 5`) does
   * not match, so the search moves on and the next line's value is the
   * result.
   */
  lemma {:induction false} UnquotedThenLiveKey(rest: string, value: string)
    requires |rest| > 0 && !IsRegexSpace(rest[0]) && rest[0] != '"' && '\n' !in rest
    requires '\n' !in value
    ensures var unquoted := Key + ": " + rest;
            WorkspaceFolderFromDefinition(unquoted + "\n" + Key + ":\"" + value + "\"") == value
  {
    var unquoted := Key + ": " + rest;
    var text := unquoted + "\n" + Key + ":\"" + value + "\"";
    var p := |unquoted| + 1;
    var c := p + |Key| + 2;
    SecondLineShape(unquoted, value);
    assert text[..|unquoted|] == unquoted;
    UnquotedLineStart(rest, text);
    KeyLineValue(text, p, p, c, c + |value|, c + |value| + 1);
  }

  /** Before the newline ending `"workspaceFolder": <rest>`, the only line start is 0, and no quoted value follows its key. */
  lemma {:induction false} UnquotedLineStart(rest: string, text: string)
    requires |rest| > 0 && !IsRegexSpace(rest[0]) && rest[0] != '"' && '\n' !in rest
    requires |Key + ": " + rest| < |text| && text[..|Key + ": " + rest|] == Key + ": " + rest
    ensures forall j | 0 <= j <= |Key + ": " + rest| && LineStart(text, j) && SkipSpace(text, j) <= |Key + ": " + rest|
              :: NoKeyValueAt(text, SkipSpace(text, j))
  {
    var first := Key + ": " + rest;
    assert '\n' !in first by {
      assert '\n' !in Key + ": ";
    }
    assert text[0] == '"' && text[|Key|] == ':' && text[|Key| + 1] == ' ' && text[|Key| + 2] == rest[0];
    SkipSpaceOver(text, 0, 0);
    assert ValueStart(text, |Key|).None? by {
      SkipSpaceOver(text, |Key|, |Key|);
      SkipSpaceOver(text, |Key| + 1, |Key| + 2);
    }
    forall j | 0 <= j <= |first| && LineStart(text, j) && SkipSpace(text, j) <= |first|
      ensures NoKeyValueAt(text, SkipSpace(text, j))
    {
      assert j == 0 by {
        assert forall k | 0 <= k < |first| :: text[k] == first[k];
      }
    }
  }

  /** The second line of `first`, newline, key, `:"`, value and quote: where the pieces sit */
  lemma {:induction false} SecondLineShape(first: string, value: string)
    requires '\n' !in value
    ensures var text := first + "\n" + Key + ":\"" + value + "\"";
            var p := |first| + 1;
            var c := p + |Key| + 2;
            && LineStart(text, p)
            && OccursAt(text, Key, p)
            && ValueStart(text, p + |Key|) == Some(c)
            && c + |value| + 1 == |text|
            && text[c..c + |value|] == value
            && text[c + |value|] == '"'
            && forall k | c <= k < c + |value| + 1 :: text[k] != '\n'
  {
    var text := first + "\n" + Key + ":\"" + value + "\"";
    var p := |first| + 1;
    var c := p + |Key| + 2;
    assert text[p - 1] == '\n';
    assert text[p..p + |Key|] == Key;
    assert ValueStart(text, p + |Key|) == Some(c) by {
      assert text[p + |Key|] == ':' && text[p + |Key| + 1] == '"';
      SkipSpaceOver(text, p + |Key|, p + |Key|);
      SkipSpaceOver(text, p + |Key| + 1, p + |Key| + 1);
    }
    assert forall k | c <= k < c + |value| :: text[k] == value[k - c];
  }

  /** Before the newline that ends a first line starting with `/`, the only line start is 0, and no key follows it. */
  lemma {:induction false} SlashLineStart(first: string, text: string)
    requires |first| > 0 && first[0] == '/' && '\n' !in first
    requires |first| < |text| && text[..|first|] == first
    ensures forall j | 0 <= j <= |first| && LineStart(text, j) && SkipSpace(text, j) <= |first| :: !OccursAt(text, Key, SkipSpace(text, j))
  {
    forall j | 0 <= j <= |first| && LineStart(text, j) && SkipSpace(text, j) <= |first|
      ensures !OccursAt(text, Key, SkipSpace(text, j))
    {
      assert j == 0;
      assert text[0] == '/';
      SkipSpaceOver(text, 0, 0);
      if OccursAt(text, Key, 0) {
        KeyIsNotSpace(text, 0);
      }
    }
  }

  lemma {:induction false} KeyIsNotSpace(text: string, q: nat)
    requires OccursAt(text, Key, q)
    ensures q < |text| && text[q] == '"'
  {
    assert text[q] == text[q..q + |Key|][0];
  }

  /** The capture ends at the last quote of the line. */
  lemma {:induction false} CaptureToLastQuote(text: string, c: nat, v: nat, e: nat)
    requires c <= v < e <= |text|
    requires text[v] == '"' && forall k | v < k < e :: text[k] != '"'
    requires forall k | c <= k < e :: text[k] != '\n'
    requires e == |text| || text[e] == '\n'
    ensures Capture(text, c) == Some(text[c..v])
  {
    LineEndAt(text, c, e);
    var line := text[c..e];
    assert line[v - c] == '"';
    assert forall j | v - c < j < |line| :: line[j] == text[c + j];
    assert LastIndexAny(line, {'"'}) == v - c;
    assert line[..v - c] == text[c..v];
  }

  /**
   * An attempt at an earlier line start either stops its white space
   * before the key line's start, where no key with a quoted value follows,
   * or skips white space up to the key itself.
   */
  lemma {:induction false} EarlierAttempt(text: string, p: nat, q: nat, j: nat)
    requires LineStart(text, p) && p <= q <= |text|
    requires forall k | p <= k < q :: IsRegexSpace(text[k])
    requires forall j | 0 <= j < p && LineStart(text, j) && SkipSpace(text, j) < p :: NoKeyValueAt(text, SkipSpace(text, j))
    requires OccursAt(text, Key, q)
    requires j < p && LineStart(text, j)
    ensures Attempt(text, j).None? || Attempt(text, j) == Attempt(text, p)
  {
    var r := SkipSpace(text, j);
    KeyIsNotSpace(text, q);
    SkipSpaceOver(text, p, q);
    if r >= p {
      assert r <= q;
      SkipSpaceOver(text, j, q);
    }
  }

  /** Every attempt before the key line's start fails or captures what the key line does. */
  lemma {:induction false} EarlierAttempts(text: string, p: nat, q: nat)
    requires LineStart(text, p) && p <= q <= |text|
    requires forall k | p <= k < q :: IsRegexSpace(text[k])
    requires forall j | 0 <= j < p && LineStart(text, j) && SkipSpace(text, j) < p :: NoKeyValueAt(text, SkipSpace(text, j))
    requires OccursAt(text, Key, q)
    ensures forall j | 0 <= j < p :: Attempt(text, j).None? || Attempt(text, j) == Attempt(text, p)
  {
    forall j | 0 <= j < p ensures Attempt(text, j).None? || Attempt(text, j) == Attempt(text, p) {
      if LineStart(text, j) {
        EarlierAttempt(text, p, q, j);
      }
    }
  }

  lemma {:induction false} SkipSpaceOver(text: string, i: nat, j: nat)
    requires i <= j < |text| && !IsRegexSpace(text[j])
    requires forall k | i <= k < j :: IsRegexSpace(text[k])
    ensures SkipSpace(text, i) == j
    decreases j - i
  {
    if i < j { SkipSpaceOver(text, i + 1, j); }
  }

  lemma {:induction false} LineEndAt(text: string, i: nat, e: nat)
    requires i <= e <= |text| && (e == |text| || text[e] == '\n')
    requires forall k | i <= k < e :: text[k] != '\n'
    ensures LineEnd(text, i) == e
    decreases e - i
  {
    if i < e { LineEndAt(text, i + 1, e); }
  }

  // ---------------------------------------------------------------------
  // GetWorkspaceMountPath and GetDevContainerURI
  // ---------------------------------------------------------------------

  /** The definition GetWorkspaceMountPath reads, relative to the folder */
  const DefinitionInFolder: string := ".devcontainer/devcontainer.json"

  const WorkspacesRoot: string := "/workspaces/"

  const UriScheme: string := "vscode-remote://dev-container+"

  /** The default mount path: /workspaces/ and the last element of the folder path */
  function DefaultMountPath(folderPath: string): (r: string)
    ensures HasPrefix(r, WorkspacesRoot)
    ensures forall k | |WorkspacesRoot| <= k < |r| :: r[k] != '/'
  {
    WorkspacesRoot + FilePath.Split(folderPath).file
  }

  /**
   * GetWorkspaceMountPath (not under WSL): the `workspaceFolder` of the
   * folder's .devcontainer/devcontainer.json, or the default when it has
   * none or an empty one.
   */
  function GetWorkspaceMountPath(fs: FileSystem, folderPath: string): (r: Result<string, Error>)
  {
    var definitionPath := FilePath.Join([folderPath, DefinitionInFolder]);
    match ReadFile(fs, definitionPath)
    case Failure(_) => Failure(LoadDefinitionFailed(definitionPath))
    case Success(buf) =>
      var mount := WorkspaceFolderFromDefinition(buf);
      if mount != "" then Success(mount) else Success(DefaultMountPath(folderPath))
  }

  /**
   * The mount path fails only when the definition cannot be read; it is
   * the extracted folder when that is not empty, the default otherwise.
   */
  lemma {:induction false} MountPathChoice(fs: FileSystem, folderPath: string)
    ensures var definitionPath := FilePath.Join([folderPath, DefinitionInFolder]);
            var r := GetWorkspaceMountPath(fs, folderPath);
            && (r.Failure? <==> Stat(fs, definitionPath) != RegularFile)
            && (r.Failure? ==> r.error == LoadDefinitionFailed(definitionPath))
            && (r.Success? ==>
                  var extracted := WorkspaceFolderFromDefinition(fs.files[definitionPath]);
                  r.value == if extracted != "" then extracted else DefaultMountPath(folderPath))
  {
  }

  /** For a clean absolute folder, the default mount path ends with the folder's last element. */
  lemma {:induction false} DefaultMountPathOfFolder(elems: seq<string>)
    requires |elems| >= 1 && FilePath.AllPlain(elems)
    ensures DefaultMountPath(FilePath.RootedPath(elems)) == WorkspacesRoot + elems[|elems| - 1]
  {
    var n := |elems| - 1;
    var last := elems[n];
    var before := if n == 0 then "" else FilePath.RootedPath(elems[..n]);
    assert FilePath.RootedPath(elems) == before + "/" + last by {
      if n > 0 {
        assert elems == elems[..n] + [last];
        JoinAppend(elems[..n], [last], '/');
        assert Join([last], '/') == last;
      }
    }
    assert FilePath.IsPlainElement(last);
    LastSeparatorAfter(before, last);
  }

  /** The last separator of `a/b`, when `b` has none, is the one before `b`. */
  lemma {:induction false} LastSeparatorAfter(a: string, b: string)
    requires '/' !in b
    ensures FilePath.LastSeparator(a + "/" + b) == |a|
    ensures FilePath.Split(a + "/" + b).file == b
    decreases |b|
  {
    var p := a + "/" + b;
    if |b| > 0 {
      assert p[|p| - 1] == b[|b| - 1];
      assert p[..|p| - 1] == a + "/" + b[..|b| - 1];
      LastSeparatorAfter(a, b[..|b| - 1]);
    } else {
      assert p == a + "/";
    }
    assert p[|a| + 1..] == b;
  }

  /**
   * GetDevContainerURI (not under WSL), with the working directory as a
   * parameter: the scheme, the hex of the absolute folder path, then the
   * workspace mount path.
   */
  function GetDevContainerURI(fs: FileSystem, cwd: string, folderPath: string): (r: Result<string, Error>)
    requires FilePath.IsAbs(cwd)
  {
    var absPath := FilePath.Abs(cwd, folderPath);
    var launchPathHex := ConvertToHexString(absPath);
    var workspaceMountPath :- GetWorkspaceMountPath(fs, absPath);
    Success(UriScheme + launchPathHex + workspaceMountPath)
  }

  /**
   * The URI fails iff the mount path does; otherwise the text after the
   * scheme starts with the hex of the absolute path, which decodes back
   * to that path's bytes, and ends with the mount path.
   */
  lemma {:induction false} DevContainerUriParts(fs: FileSystem, cwd: string, folderPath: string)
    requires FilePath.IsAbs(cwd)
    ensures var absPath := FilePath.Abs(cwd, folderPath);
            var r := GetDevContainerURI(fs, cwd, folderPath);
            var mount := GetWorkspaceMountPath(fs, absPath);
            && (r.Failure? <==> mount.Failure?)
            && (r.Success? ==>
                  var n := |UriScheme| + 2 * |Utf8(absPath)|;
                  && n <= |r.value|
                  && r.value[..|UriScheme|] == UriScheme
                  && HexDecode(r.value[|UriScheme|..n]) == Some(Utf8(absPath))
                  && r.value[n..] == mount.value)
  {
    var absPath := FilePath.Abs(cwd, folderPath);
    var hex := ConvertToHexString(absPath);
    var mount := GetWorkspaceMountPath(fs, absPath);
    if mount.Success? {
      var uri := UriScheme + hex + mount.value;
      assert uri[..|UriScheme|] == UriScheme;
      assert uri[|UriScheme|..|UriScheme| + |hex|] == hex;
      assert uri[|UriScheme| + |hex|..] == mount.value;
    }
  }
}
