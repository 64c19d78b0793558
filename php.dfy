/** The PHP and PCRE built-ins the shortcode engine leans on, written out:
    character classes of PCRE without the `u` modifier, PHP's `empty()` on
    strings, `strtolower`, `ltrim`, `trim` as used by `filter_var`, and
    `stripcslashes`. Strings are sequences of characters: code points, as
    PCRE's `u` modifier reads them; for ASCII text a character is one byte
    of the PHP string. */
module Php {

  datatype Option<T> = None | Some(value: T)

  /** PCRE `\w` (no `u` modifier): ASCII letters, digits and underscore. */
  predicate IsWord(c: char) {
    'a' <= c <= 'z' || 'A' <= c <= 'Z' || '0' <= c <= '9' || c == '_'
  }

  /** PCRE `\s`: space, tab, line feed, vertical tab, form feed, carriage return. */
  predicate IsSpace(c: char) {
    c == ' ' || c == '\t' || c == '\n' || c == '\U{B}' || c == '\U{C}' || c == '\r'
  }

  predicate NotSpace(c: char) { !IsSpace(c) }

  /** PHP `empty()` on a string: true for "" and for "0". */
  predicate PhpEmpty(s: string) { s == "" || s == "0" }

  /** `t` occurs in `s` at offset `p`. */
  predicate PrefixAt(s: string, p: nat, t: string) {
    p + |t| <= |s| && s[p..p + |t|] == t
  }

  /** `strpos`-style search for one character: the first `c` at or after `from`. */
  function FindChar(s: string, from: nat, c: char): (r: Option<nat>)
    requires from <= |s|
    ensures r.Some? ==> from <= r.value < |s| && s[r.value] == c
    decreases |s| - from
  {
    if from == |s| then None
    else if s[from] == c then Some(from)
    else FindChar(s, from + 1, c)
  }

  /** The offset `FindChar` returns is the first `c`; when it returns
      nothing, there is no `c` from `from` on. */
  lemma {:induction false} FindCharFirst(s: string, from: nat, c: char)
    requires from <= |s|
    ensures var r := FindChar(s, from, c);
      (r.Some? ==> forall j :: from <= j < r.value ==> s[j] != c) &&
      (r.None? ==> forall j :: from <= j < |s| ==> s[j] != c)
    decreases |s| - from
  {
    if from < |s| && s[from] != c {
      FindCharFirst(s, from + 1, c);
    }
  }

  /** A `c` at offset `k` with none before it from `from` on is what
      `FindChar` finds. */
  lemma {:induction false} FindCharIs(s: string, from: nat, c: char, k: nat)
    requires from <= k < |s| && s[k] == c
    requires forall j :: from <= j < k ==> s[j] != c
    ensures FindChar(s, from, c) == Some(k)
    decreases k - from
  {
    if from < k {
      FindCharIs(s, from + 1, c, k);
    }
  }

  /** The first offset at or after `from` where `t` occurs in `s`. */
  function FindText(s: string, from: nat, t: string): (r: Option<nat>)
    requires from <= |s|
    ensures r.Some? ==> from <= r.value && PrefixAt(s, r.value, t)
    decreases |s| - from
  {
    if PrefixAt(s, from, t) then Some(from)
    else if from == |s| then None
    else FindText(s, from + 1, t)
  }

  /** The offset `FindText` returns is the first occurrence; when it returns
      nothing, `t` occurs nowhere from `from` on. */
  lemma {:induction false} FindTextFirst(s: string, from: nat, t: string)
    requires from <= |s|
    ensures var r := FindText(s, from, t);
      (r.Some? ==> forall j :: from <= j < r.value ==> !PrefixAt(s, j, t)) &&
      (r.None? ==> forall j :: from <= j <= |s| ==> !PrefixAt(s, j, t))
    decreases |s| - from
  {
    if !PrefixAt(s, from, t) && from < |s| {
      FindTextFirst(s, from + 1, t);
    }
  }

  /** End of the longest run of characters of class `cls` starting at `p`. */
  function RunEnd(s: string, p: nat, cls: char -> bool): (e: nat)
    requires p <= |s|
    ensures p <= e <= |s|
    ensures e == |s| || !cls(s[e])
    decreases |s| - p
  {
    if p == |s| || !cls(s[p]) then p else RunEnd(s, p + 1, cls)
  }

  /** Every character of the run `RunEnd` skips is of class `cls`. */
  lemma {:induction false} RunEndAll(s: string, p: nat, cls: char -> bool)
    requires p <= |s|
    ensures forall j :: p <= j < RunEnd(s, p, cls) ==> cls(s[j])
    decreases |s| - p
  {
    if p < |s| && cls(s[p]) {
      RunEndAll(s, p + 1, cls);
    }
  }

  /** A run of class `cls` from `p` to `e` that stops at the end of the text
      or at a character outside the class is the run `RunEnd` finds. */
  lemma {:induction false} RunEndIs(s: string, p: nat, e: nat, cls: char -> bool)
    requires p <= e <= |s| && (e == |s| || !cls(s[e]))
    requires forall j :: p <= j < e ==> cls(s[j])
    ensures RunEnd(s, p, cls) == e
    decreases e - p
  {
    if p < e {
      RunEndIs(s, p + 1, e, cls);
    }
  }

  function LowerChar(c: char): char {
    if 'A' <= c <= 'Z' then (c as int + 32) as char else c
  }

  /** `strtolower` on ASCII letters. */
  function Lower(s: string): (r: string)
    ensures |r| == |s|
  {
    if s == [] then [] else [LowerChar(s[0])] + Lower(s[1..])
  }

  /** `Lower` maps each character on its own. */
  lemma {:induction false} LowerEach(s: string)
    ensures forall i :: 0 <= i < |s| ==> Lower(s)[i] == LowerChar(s[i])
  {
    if s != [] {
      LowerEach(s[1..]);
    }
  }

  /** Characters `ltrim` removes by default: " \t\n\r\0\x0B". */
  predicate IsLTrimmed(c: char) {
    c == ' ' || c == '\t' || c == '\n' || c == '\r' || c == '\0' || c == '\U{B}'
  }

  /** `ltrim($s)`: the suffix of `s` after its leading trimmable characters. */
  function LTrim(s: string): (r: string)
    ensures |r| <= |s| && r == s[|s| - |r|..]
    ensures r == [] || !IsLTrimmed(r[0])
  {
    var k := RunEnd(s, 0, IsLTrimmed);
    assert k == |s| || s[k..][0] == s[k];
    s[k..]
  }

  /** Everything `LTrim` removes is trimmable. */
  lemma LTrimRemovesTrimmable(s: string)
    ensures forall i :: 0 <= i < |s| - |LTrim(s)| ==> IsLTrimmed(s[i])
  {
    RunEndAll(s, 0, IsLTrimmed);
  }

  /** Characters `filter_var` trims before validating: " \t\r\v\n". */
  predicate IsFilterTrimmed(c: char) {
    c == ' ' || c == '\t' || c == '\r' || c == '\U{B}' || c == '\n'
  }

  function TrimEnd(s: string): (r: string)
    ensures |r| <= |s| && r == s[..|r|]
    ensures r == [] || !IsFilterTrimmed(r[|r| - 1])
  {
    if s != [] && IsFilterTrimmed(s[|s| - 1]) then TrimEnd(s[..|s| - 1]) else s
  }

  function TrimStart(s: string): (r: string)
    ensures |r| <= |s| && r == s[|s| - |r|..]
    ensures r == [] || !IsFilterTrimmed(r[0])
  {
    if s != [] && IsFilterTrimmed(s[0]) then TrimStart(s[1..]) else s
  }

  /** `filter_var($v, FILTER_VALIDATE_BOOLEAN)` without flags: true exactly for
      "1", "true", "on", "yes" in any letter case, ignoring surrounding blanks;
      every other value (a failed validation included) gives false. */
  function FilterBoolean(v: string): (r: bool)
    ensures r ==> TrimStart(TrimEnd(v)) != []
  {
    var w := Lower(TrimStart(TrimEnd(v)));
    w == "1" || w == "true" || w == "on" || w == "yes"
  }

  /** Trailing blanks do not matter to `TrimEnd`. */
  lemma {:induction false} TrimEndBlanks(x: string, post: string)
    requires forall j :: 0 <= j < |post| ==> IsFilterTrimmed(post[j])
    ensures TrimEnd(x + post) == TrimEnd(x)
    decreases |post|
  {
    if post != [] {
      var init := post[..|post| - 1];
      assert (x + post)[..|x + post| - 1] == x + init;
      TrimEndBlanks(x, init);
    } else {
      assert x + post == x;
    }
  }

  /** Leading blanks do not matter to `TrimStart`. */
  lemma {:induction false} TrimStartBlanks(pre: string, x: string)
    requires forall j :: 0 <= j < |pre| ==> IsFilterTrimmed(pre[j])
    ensures TrimStart(pre + x) == TrimStart(x)
    decreases |pre|
  {
    if pre != [] {
      assert (pre + x)[1..] == pre[1..] + x;
      TrimStartBlanks(pre[1..], x);
    } else {
      assert pre + x == x;
    }
  }

  /** `filter_var` ignores blanks around the value and letter case: a value
      is true exactly when, stripped of its blanks and lower-cased, it is one
      of "1", "true", "on", "yes". */
  lemma FilterBooleanIgnoresBlanks(pre: string, u: string, post: string)
    requires forall j :: 0 <= j < |pre| ==> IsFilterTrimmed(pre[j])
    requires forall j :: 0 <= j < |post| ==> IsFilterTrimmed(post[j])
    requires u != [] && !IsFilterTrimmed(u[0]) && !IsFilterTrimmed(u[|u| - 1])
    ensures FilterBoolean(pre + u + post) <==>
      Lower(u) == "1" || Lower(u) == "true" || Lower(u) == "on" || Lower(u) == "yes"
  {
    TrimAroundIs(pre, u, post);
  }

  /** Stripping blanks from both ends gives back exactly the core `u`. */
  lemma TrimAroundIs(pre: string, u: string, post: string)
    requires forall j :: 0 <= j < |pre| ==> IsFilterTrimmed(pre[j])
    requires forall j :: 0 <= j < |post| ==> IsFilterTrimmed(post[j])
    requires u != [] && !IsFilterTrimmed(u[0]) && !IsFilterTrimmed(u[|u| - 1])
    ensures TrimStart(TrimEnd(pre + u + post)) == u
  {
    var x := pre + u;
    TrimEndBlanks(x, post);
    assert x[|x| - 1] == u[|u| - 1];
    assert TrimEnd(x) == x;
    TrimStartBlanks(pre, u);
    assert TrimStart(u) == u;
    assert TrimStart(TrimEnd(x + post)) == TrimStart(x);
  }

  predicate IsHex(c: char) { '0' <= c <= '9' || 'a' <= c <= 'f' || 'A' <= c <= 'F' }

  function HexValue(c: char): nat
    requires IsHex(c)
  {
    if '0' <= c <= '9' then c as int - '0' as int
    else if 'a' <= c <= 'f' then c as int - 'a' as int + 10
    else c as int - 'A' as int + 10
  }

  predicate IsOctal(c: char) { '0' <= c <= '7' }

  /** Number of octal digits (at most three) starting at offset `p`. */
  function OctalRun(s: string, p: nat): (n: nat)
    requires p <= |s|
    ensures n <= 3 && p + n <= |s|
    ensures forall j :: p <= j < p + n ==> IsOctal(s[j])
  {
    if p + 2 < |s| && IsOctal(s[p]) && IsOctal(s[p + 1]) && IsOctal(s[p + 2]) then 3
    else if p + 1 < |s| && IsOctal(s[p]) && IsOctal(s[p + 1]) then 2
    else if p < |s| && IsOctal(s[p]) then 1
    else 0
  }

  function OctalValue(s: string): nat
    requires forall j :: 0 <= j < |s| ==> IsOctal(s[j])
  {
    if s == [] then 0
    else
      assert IsOctal(s[|s| - 1]);
      8 * OctalValue(s[..|s| - 1]) + (s[|s| - 1] as int - '0' as int)
  }

  /** The character for one byte value (the C `(char)` cast). */
  function Byte(n: nat): char {
    (n % 256) as char
  }

  /** `stripcslashes`: C-style escapes `\n \r \a \t \v \b \f`, `\xH` / `\xHH`,
      octal `\o`, `\oo`, `\ooo`, and `\c` for any other `c` become one
      character; a backslash at the very end is kept. */
  function Unescape(s: string): (r: string)
    ensures |r| <= |s|
    decreases |s|
  {
    if s == [] then []
    else if s[0] != '\\' || |s| == 1 then [s[0]] + Unescape(s[1..])
    else
      var c := s[1];
      if c == 'n' then ['\n'] + Unescape(s[2..])
      else if c == 'r' then ['\r'] + Unescape(s[2..])
      else if c == 'a' then ['\U{7}'] + Unescape(s[2..])
      else if c == 't' then ['\t'] + Unescape(s[2..])
      else if c == 'v' then ['\U{B}'] + Unescape(s[2..])
      else if c == 'b' then ['\U{8}'] + Unescape(s[2..])
      else if c == 'f' then ['\U{C}'] + Unescape(s[2..])
      else if c == 'x' && 2 < |s| && IsHex(s[2]) then
        if 3 < |s| && IsHex(s[3]) then [Byte(16 * HexValue(s[2]) + HexValue(s[3]))] + Unescape(s[4..])
        else [Byte(HexValue(s[2]))] + Unescape(s[3..])
      else
        var n := OctalRun(s, 1);
        if n > 0 then [Byte(OctalValue(s[1..1 + n]))] + Unescape(s[1 + n..])
        else [c] + Unescape(s[2..])
  }

  /** Text without backslashes passes through `stripcslashes` unchanged. */
  lemma {:induction false} UnescapeWithoutBackslash(s: string)
    requires '\\' !in s
    ensures Unescape(s) == s
  {
    if s != [] {
      assert '\\' !in s[1..] by { assert forall c :: c in s[1..] ==> c in s; }
      UnescapeWithoutBackslash(s[1..]);
    }
  }
}
