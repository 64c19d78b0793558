/** `shortcode_parse_atts`: the attribute text of a tag (group 3) split into
    named and positional values by the pattern
      (\w+)\s*=\s*"([^"]*)"(?:\s|$) | (\w+)\s*=\s*'([^']*)'(?:\s|$) |
      (\w+)\s*=\s*([^\s'"]+)(?:\s|$) | "([^"]*)"(?:\s|$) | (\S+)(?:\s|$)
    applied by `preg_match_all`, after non-breaking and zero-width spaces have
    been turned into ordinary spaces. */
module Attributes {
  import opened Php

  /** Which of the three `key=value` alternatives recognised a token. */
  datatype Form = DoubleQuoted | SingleQuoted | Unquoted

  /** One match of the attribute pattern: a `key=value` pair (alternatives 1 to
      3), a bare double-quoted string (4) or a bare token (5). */
  datatype Token =
    | Named(form: Form, key: string, value: string)
    | Quoted(value: string)
    | Bare(value: string)

  /** The parse result: PHP returns an array mixing lower-cased keys and
      positional entries, or, when the pattern found nothing, the
      left-trimmed text itself. */
  datatype ParsedAtts =
    | Attrs(named: map<string, string>, positional: seq<string>)
    | Scalar(text: string)

  predicate IsInvisibleSpace(c: char) { c == '\U{A0}' || c == '\U{200B}' }

  /** `preg_replace("/[\x{00a0}\x{200b}]+/u", " ", $text)`: every run of
      non-breaking and zero-width spaces becomes one space. */
  function Normalize(s: string): (r: string)
    ensures |r| <= |s|
  {
    if s == [] then []
    else if IsInvisibleSpace(s[0]) then
      if |s| > 1 && IsInvisibleSpace(s[1]) then Normalize(s[1..]) else [' '] + Normalize(s[1..])
    else [s[0]] + Normalize(s[1..])
  }

  /** No invisible space survives `Normalize`. */
  lemma {:induction false} NormalizeLeavesNoInvisible(s: string)
    ensures forall i :: 0 <= i < |Normalize(s)| ==> !IsInvisibleSpace(Normalize(s)[i])
  {
    if s != [] {
      NormalizeLeavesNoInvisible(s[1..]);
      var r := Normalize(s[1..]);
      if IsInvisibleSpace(s[0]) && !(|s| > 1 && IsInvisibleSpace(s[1])) {
        assert Normalize(s) == [' '] + r;
      } else if !IsInvisibleSpace(s[0]) {
        assert Normalize(s) == [s[0]] + r;
      }
    }
  }

  /** Text without those characters is left alone. */
  lemma {:induction false} NormalizeKeepsVisible(s: string)
    requires forall i :: 0 <= i < |s| ==> !IsInvisibleSpace(s[i])
    ensures Normalize(s) == s
  {
    if s != [] {
      NormalizeKeepsVisible(s[1..]);
    }
  }

  /** A non-empty run of invisible spaces becomes one space. */
  lemma {:induction false} NormalizeRun(run: string)
    requires run != [] && forall i :: 0 <= i < |run| ==> IsInvisibleSpace(run[i])
    ensures Normalize(run) == " "
  {
    if |run| > 1 {
      NormalizeRun(run[1..]);
    }
  }

  /** Text can be normalised piece by piece where the cut does not fall
      inside a run of invisible spaces. */
  lemma {:induction false} NormalizeAppend(u: string, v: string)
    requires u == [] || v == [] || !IsInvisibleSpace(u[|u| - 1]) || !IsInvisibleSpace(v[0])
    ensures Normalize(u + v) == Normalize(u) + Normalize(v)
  {
    if u == [] {
      assert u + v == v;
    } else {
      var t := u[1..];
      assert (u + v)[0] == u[0] && (u + v)[1..] == t + v;
      NormalizeAppend(t, v);
      NormalizeCons(u);
      NormalizeCons(u + v);
      assert t == [] ==> t + v == v;
      assert t != [] ==> (t + v)[0] == t[0];
      var h := NormHead(u[0], t);
      assert NormHead(u[0], t + v) == h;
      assert h + (Normalize(t) + Normalize(v)) == (h + Normalize(t)) + Normalize(v);
    }
  }

  /** What `Normalize` makes of a first character `c` followed by `next`. */
  function NormHead(c: char, next: string): string {
    if !IsInvisibleSpace(c) then [c] else if next != [] && IsInvisibleSpace(next[0]) then [] else [' ']
  }

  lemma NormalizeCons(s: string)
    requires s != []
    ensures Normalize(s) == NormHead(s[0], s[1..]) + Normalize(s[1..])
  {
    if |s| > 1 {
      assert s[1..][0] == s[1];
    }
  }

  /** A run of invisible spaces between other characters becomes exactly one
      space, and the text on either side is normalised on its own. */
  lemma NormalizeRunBetween(u: string, run: string, v: string)
    requires run != [] && forall i :: 0 <= i < |run| ==> IsInvisibleSpace(run[i])
    requires u == [] || !IsInvisibleSpace(u[|u| - 1])
    requires v == [] || !IsInvisibleSpace(v[0])
    ensures Normalize(u + run + v) == Normalize(u) + " " + Normalize(v)
  {
    NormalizeThenRun(u, run);
    NormalizeAppend(u + run, v);
  }

  /** A run of invisible spaces at the end becomes one space. */
  lemma NormalizeThenRun(u: string, run: string)
    requires run != [] && forall i :: 0 <= i < |run| ==> IsInvisibleSpace(run[i])
    requires u == [] || !IsInvisibleSpace(u[|u| - 1])
    ensures Normalize(u + run) == Normalize(u) + " "
  {
    NormalizeRun(run);
    NormalizeAppend(u, run);
  }

  /** `(?:\s|$)` at offset `q`: the offset after it, if it matches. */
  function Boundary(t: string, q: nat): (r: Option<nat>)
    requires q <= |t|
    ensures r.Some? ==> q <= r.value <= |t| && r.value <= q + 1
  {
    if q == |t| then Some(q) else if IsSpace(t[q]) then Some(q + 1) else None
  }

  /** `(\w+)\s*=\s*` at offset `p`: the key and the offset of the value. */
  function Assignment(t: string, p: nat): (r: Option<(string, nat)>)
    requires p <= |t|
    ensures r.Some? ==> p < r.value.1 <= |t| && r.value.0 != [] && !IsSpace(t[p])
  {
    var w := RunEnd(t, p, IsWord);
    var q := RunEnd(t, w, IsSpace);
    if w > p && q < |t| && t[q] == '=' then Some((t[p..w], RunEnd(t, q + 1, IsSpace))) else None
  }

  /** `"([^"]*)"(?:\s|$)` (or with single quotes) at offset `q`: the quoted
      text and the offset after the match. */
  function QuotedAt(t: string, q: nat, quote: char): (r: Option<(string, nat)>)
    requires q <= |t|
    ensures r.Some? ==> q < r.value.1 <= |t|
  {
    if q < |t| && t[q] == quote then
      match FindChar(t, q + 1, quote)
      case None => None
      case Some(c) =>
        match Boundary(t, c + 1)
        case None => None
        case Some(e) => Some((t[q + 1..c], e))
    else None
  }

  /** `[^\s'"]`: a character of an unquoted value. */
  predicate IsValueChar(c: char) { !IsSpace(c) && c != '\'' && c != '"' }

  /** The first three alternatives (`key="value"`, `key='value'`,
      `key=value`) anchored at offset `p`, tried in that order. */
  function NamedAt(t: string, p: nat): (r: Option<(Token, nat)>)
    requires p <= |t|
    ensures r.Some? ==> p < r.value.1 <= |t|
  {
    match Assignment(t, p)
    case None => None
    case Some((key, v)) =>
      match QuotedAt(t, v, '"')
      case Some((dq, e)) => Some((Named(DoubleQuoted, key, dq), e))
      case None =>
        match QuotedAt(t, v, '\'')
        case Some((sq, e)) => Some((Named(SingleQuoted, key, sq), e))
        case None =>
          var ue := RunEnd(t, v, IsValueChar);
          if ue > v then
            match Boundary(t, ue)
            case Some(e) => Some((Named(Unquoted, key, t[v..ue]), e))
            case None => None
          else None
  }

  /** The attribute pattern anchored at offset `p`: the first of its five
      alternatives that matches, and the offset after the match. */
  function TokenAt(t: string, p: nat): (r: Option<(Token, nat)>)
    requires p <= |t|
    ensures r.Some? ==> p < r.value.1 <= |t|
  {
    match NamedAt(t, p)
    case Some(named) => Some(named)
    case None =>
      match QuotedAt(t, p, '"')
      case Some((q, e)) => Some((Quoted(q), e))
      case None =>
        var be := RunEnd(t, p, NotSpace);
        if be > p then Some((Bare(t[p..be]), if be == |t| then be else be + 1))
        else None
  }

  /** The attribute pattern matches at `p` exactly when a non-space
      character is there: the bare alternative takes any such character. */
  lemma TokenAtSome(t: string, p: nat)
    requires p <= |t|
    ensures TokenAt(t, p).Some? <==> p < |t| && !IsSpace(t[p])
  {
    var n := NamedAt(t, p);
    if n.Some? {
      var a := Assignment(t, p);
      assert a.Some?;
    }
  }

  /* The five alternatives of the attribute pattern, each read on its own
     as the stretch of text it spans and the groups it captures. */

  /** Every character of `t[i..j]` is of class `cls`. */
  predicate AllOf(t: string, i: nat, j: nat, cls: char -> bool)
    requires i <= j <= |t|
  {
    forall q :: i <= q < j ==> cls(t[q])
  }

  /** `(?:\s|$)` spans `t[b..e]`. */
  predicate EndsAt(t: string, b: nat, e: nat) {
    (b == |t| && e == b) || (b < |t| && IsSpace(t[b]) && e == b + 1)
  }

  /** `(\w+)\s*=\s*` spans `t[p..v]`: the key `t[p..w]`, blanks, `=` at
      `eq`, blanks. */
  predicate AssignSpan(t: string, p: nat, w: nat, eq: nat, v: nat) {
    p < w <= eq < v <= |t| && AllOf(t, p, w, IsWord) && AllOf(t, w, eq, IsSpace) &&
    t[eq] == '=' && AllOf(t, eq + 1, v, IsSpace)
  }

  /** A string in `quote`s from `q` to `c` (holding no `quote`), then
      `(?:\s|$)`, spans `t[q..e]`. */
  predicate QuotedSpan(t: string, q: nat, c: nat, e: nat, quote: char) {
    q < c < |t| && t[q] == quote && t[c] == quote &&
    (forall x :: q < x < c ==> t[x] != quote) && EndsAt(t, c + 1, e)
  }

  /** Alternative 1, `(\w+)\s*=\s*"([^"]*)"(?:\s|$)`. */
  predicate DoubleQuotedAlt(t: string, p: nat, w: nat, eq: nat, v: nat, c: nat, e: nat) {
    AssignSpan(t, p, w, eq, v) && QuotedSpan(t, v, c, e, '"')
  }

  /** Alternative 2, `(\w+)\s*=\s*'([^']*)'(?:\s|$)`. */
  predicate SingleQuotedAlt(t: string, p: nat, w: nat, eq: nat, v: nat, c: nat, e: nat) {
    AssignSpan(t, p, w, eq, v) && QuotedSpan(t, v, c, e, '\'')
  }

  /** Alternative 3, `(\w+)\s*=\s*([^\s'"]+)(?:\s|$)`. */
  predicate UnquotedAlt(t: string, p: nat, w: nat, eq: nat, v: nat, u: nat, e: nat) {
    AssignSpan(t, p, w, eq, v) && v < u <= |t| && AllOf(t, v, u, IsValueChar) && EndsAt(t, u, e)
  }

  /** Alternative 4, `"([^"]*)"(?:\s|$)`. */
  predicate QuotedAlt(t: string, p: nat, c: nat, e: nat) {
    QuotedSpan(t, p, c, e, '"')
  }

  /** Alternative 5, `(\S+)(?:\s|$)`. */
  predicate BareAlt(t: string, p: nat, u: nat, e: nat) {
    p < u <= |t| && AllOf(t, p, u, NotSpace) && EndsAt(t, u, e)
  }

  /** The assignment prefix spanning `t[p..v]` is what `Assignment` reads,
      provided the value starts with a character that is not blank. */
  lemma AssignmentIs(t: string, p: nat, w: nat, eq: nat, v: nat)
    requires AssignSpan(t, p, w, eq, v) && v < |t| && !IsSpace(t[v])
    ensures Assignment(t, p) == Some((t[p..w], v))
  {
    RunEndIs(t, p, w, IsWord);
    RunEndIs(t, w, eq, IsSpace);
    RunEndIs(t, eq + 1, v, IsSpace);
  }

  /** The quoted string spanning `t[q..e]` is what `QuotedAt` reads. */
  lemma QuotedAtIs(t: string, q: nat, c: nat, e: nat, quote: char)
    requires QuotedSpan(t, q, c, e, quote)
    ensures QuotedAt(t, q, quote) == Some((t[q + 1..c], e))
  {
    FindCharIs(t, q + 1, quote, c);
  }

  /** Alternative 1 wins wherever it matches, with key and value as its
      groups 1 and 2. */
  lemma TokenAtDoubleQuoted(t: string, p: nat, w: nat, eq: nat, v: nat, c: nat, e: nat)
    requires DoubleQuotedAlt(t, p, w, eq, v, c, e)
    ensures TokenAt(t, p) == Some((Named(DoubleQuoted, t[p..w], t[v + 1..c]), e))
  {
    AssignmentIs(t, p, w, eq, v);
    QuotedAtIs(t, v, c, e, '"');
  }

  /** Alternative 2 wins wherever it matches (alternative 1 cannot, the
      value starting with a single quote), with groups 3 and 4. */
  lemma TokenAtSingleQuoted(t: string, p: nat, w: nat, eq: nat, v: nat, c: nat, e: nat)
    requires SingleQuotedAlt(t, p, w, eq, v, c, e)
    ensures TokenAt(t, p) == Some((Named(SingleQuoted, t[p..w], t[v + 1..c]), e))
  {
    AssignmentIs(t, p, w, eq, v);
    QuotedAtIs(t, v, c, e, '\'');
  }

  /** Alternative 3 wins wherever it matches (the value starts with no
      quote, so alternatives 1 and 2 cannot), with groups 5 and 6. */
  lemma TokenAtUnquoted(t: string, p: nat, w: nat, eq: nat, v: nat, u: nat, e: nat)
    requires UnquotedAlt(t, p, w, eq, v, u, e)
    ensures TokenAt(t, p) == Some((Named(Unquoted, t[p..w], t[v..u]), e))
  {
    AssignmentIs(t, p, w, eq, v);
    RunEndIs(t, v, u, IsValueChar);
  }

  /** Alternative 4 wins wherever it matches (a token starting with `"` has
      no key), with group 7. */
  lemma TokenAtQuoted(t: string, p: nat, c: nat, e: nat)
    requires QuotedAlt(t, p, c, e)
    ensures TokenAt(t, p) == Some((Quoted(t[p + 1..c]), e))
  {
    assert RunEnd(t, p, IsWord) == p;
    QuotedAtIs(t, p, c, e, '"');
  }

  /** Alternative 5 is taken, with group 8, exactly where none of the
      others matches. */
  lemma TokenAtBare(t: string, p: nat, u: nat, e: nat)
    requires BareAlt(t, p, u, e)
    requires forall w, eq, v, c, e' :: !DoubleQuotedAlt(t, p, w, eq, v, c, e')
    requires forall w, eq, v, c, e' :: !SingleQuotedAlt(t, p, w, eq, v, c, e')
    requires forall w, eq, v, u', e' :: !UnquotedAlt(t, p, w, eq, v, u', e')
    requires forall c, e' :: !QuotedAlt(t, p, c, e')
    ensures TokenAt(t, p) == Some((Bare(t[p..u]), e))
  {
    NamedAtNone(t, p);
    if QuotedAt(t, p, '"').Some? {
      QuotedAtSpans(t, p, '"');
      assert QuotedAlt(t, p, FindChar(t, p + 1, '"').value, QuotedAt(t, p, '"').value.1);
      assert false;
    }
    RunEndIs(t, p, u, NotSpace);
  }

  /** What `Assignment` reads spans `t[p..v]` as `(\w+)\s*=\s*`. */
  lemma AssignmentSpans(t: string, p: nat)
    requires p <= |t| && Assignment(t, p).Some?
    ensures var w := RunEnd(t, p, IsWord);
      AssignSpan(t, p, w, RunEnd(t, w, IsSpace), Assignment(t, p).value.1)
  {
    var w := RunEnd(t, p, IsWord);
    RunEndAll(t, p, IsWord);
    RunEndAll(t, w, IsSpace);
    RunEndAll(t, RunEnd(t, w, IsSpace) + 1, IsSpace);
  }

  /** What `QuotedAt` reads spans a quoted string. */
  lemma QuotedAtSpans(t: string, q: nat, quote: char)
    requires q <= |t| && QuotedAt(t, q, quote).Some?
    ensures FindChar(t, q + 1, quote).Some? &&
      QuotedSpan(t, q, FindChar(t, q + 1, quote).value, QuotedAt(t, q, quote).value.1, quote)
  {
    FindCharFirst(t, q + 1, quote);
  }

  /** When none of the three `key=value` alternatives matches, `NamedAt`
      finds nothing. */
  lemma NamedAtNone(t: string, p: nat)
    requires p <= |t|
    requires forall w, eq, v, c, e' :: !DoubleQuotedAlt(t, p, w, eq, v, c, e')
    requires forall w, eq, v, c, e' :: !SingleQuotedAlt(t, p, w, eq, v, c, e')
    requires forall w, eq, v, u', e' :: !UnquotedAlt(t, p, w, eq, v, u', e')
    ensures NamedAt(t, p).None?
  {
    if Assignment(t, p).Some? {
      var w := RunEnd(t, p, IsWord);
      var eq := RunEnd(t, w, IsSpace);
      var v := Assignment(t, p).value.1;
      AssignmentSpans(t, p);
      if QuotedAt(t, v, '"').Some? {
        QuotedAtSpans(t, v, '"');
        assert DoubleQuotedAlt(t, p, w, eq, v, FindChar(t, v + 1, '"').value, QuotedAt(t, v, '"').value.1);
        assert false;
      } else if QuotedAt(t, v, '\'').Some? {
        QuotedAtSpans(t, v, '\'');
        assert SingleQuotedAlt(t, p, w, eq, v, FindChar(t, v + 1, '\'').value, QuotedAt(t, v, '\'').value.1);
        assert false;
      } else {
        var ue := RunEnd(t, v, IsValueChar);
        if ue > v && Boundary(t, ue).Some? {
          RunEndAll(t, v, IsValueChar);
          assert UnquotedAlt(t, p, w, eq, v, ue, Boundary(t, ue).value);
          assert false;
        }
      }
    }
  }

  /** `preg_match_all` with the attribute pattern from offset `p`. */
  function Tokens(t: string, p: nat): (r: seq<Token>)
    requires p <= |t|
    ensures |r| <= |t| - p
    decreases |t| - p, 1
  {
    if p == |t| then [] else TokensAt(t, p)
  }

  /** The matches from offset `p` when `p` is inside the text: the token the
      pattern finds at `p` and those after it, or, when it finds none there,
      those from the next offset on. */
  function TokensAt(t: string, p: nat): (r: seq<Token>)
    requires p < |t|
    ensures |r| <= |t| - p
    decreases |t| - p, 0
  {
    match TokenAt(t, p)
    case Some((tok, e)) => [tok] + Tokens(t, e)
    case None => Tokens(t, p + 1)
  }

  /** The pattern finds nothing exactly when the text is all white space. */
  lemma {:induction false} NoTokensIffBlank(t: string, p: nat)
    requires p <= |t|
    ensures Tokens(t, p) == [] <==> forall j :: p <= j < |t| ==> IsSpace(t[j])
    decreases |t| - p
  {
    if p < |t| {
      TokensStep(t, p);
      if TokenAt(t, p).None? {
        NoTokensIffBlank(t, p + 1);
      }
    }
  }

  /** One step of `Tokens`: the scan either takes a token at `p` or moves on. */
  lemma TokensStep(t: string, p: nat)
    requires p < |t|
    ensures TokenAt(t, p).Some? ==> Tokens(t, p) != [] && !IsSpace(t[p])
    ensures TokenAt(t, p).None? ==> Tokens(t, p) == Tokens(t, p + 1) && IsSpace(t[p])
  {
    TokenAtSome(t, p);
  }

  /** Token `tok` stores a value under the (lower-cased) key `k`. PHP's
      `empty()` skips a key spelled "0". */
  predicate Defines(tok: Token, k: string) {
    tok.Named? && !PhpEmpty(tok.key) && Lower(tok.key) == k
  }

  /** Token `tok` appends a positional value: a non-empty quoted string or a
      bare token. */
  predicate Appends(tok: Token) {
    (tok.Quoted? && tok.value != "") || tok.Bare?
  }

  /** One step of the `foreach` over the matches. */
  function Add(acc: ParsedAtts, tok: Token): (r: ParsedAtts)
    requires acc.Attrs?
    ensures r.Attrs?
  {
    match tok
    case Named(_, k, v) =>
      if PhpEmpty(k) then acc else acc.(named := acc.named[Lower(k) := Unescape(v)])
    case Quoted(v) =>
      if v != "" then acc.(positional := acc.positional + [Unescape(v)]) else acc
    case Bare(v) =>
      acc.(positional := acc.positional + [Unescape(v)])
  }

  /** The array after the `foreach` has seen `toks`. */
  function Collect(toks: seq<Token>): (r: ParsedAtts)
    ensures r.Attrs?
  {
    if toks == [] then Attrs(map[], []) else Add(Collect(toks[..|toks| - 1]), toks[|toks| - 1])
  }

  /** What `shortcode_parse_atts` returns for `text`. */
  function ParseAttsOf(text: string): (r: ParsedAtts)
    ensures r.Scalar? ==> |r.text| <= |text|
  {
    var t := Normalize(text);
    var toks := Tokens(t, 0);
    if toks == [] then Scalar(LTrim(t)) else Collect(toks)
  }

  /** `shortcode_parse_atts`. */
  method ParseAtts(text: string) returns (r: ParsedAtts)
    ensures r == ParseAttsOf(text)
  {
    var t := Normalize(text);
    var toks := Tokens(t, 0);
    if |toks| == 0 {
      return Scalar(LTrim(t));
    }
    var named: map<string, string> := map[];
    var positional: seq<string> := [];
    for i := 0 to |toks|
      invariant Attrs(named, positional) == Collect(toks[..i])
    {
      assert toks[..i + 1][..i] == toks[..i];
      match toks[i]
      case Named(_, k, v) =>
        if !PhpEmpty(k) {
          named := named[Lower(k) := Unescape(v)];
        }
      case Quoted(v) =>
        if |v| > 0 {
          positional := positional + [Unescape(v)];
        }
      case Bare(v) =>
        positional := positional + [Unescape(v)];
    }
    assert toks[..|toks|] == toks;
    r := Attrs(named, positional);
  }

  /** The positional values, read left to right (a reference definition). */
  function Positional(toks: seq<Token>): seq<string> {
    if toks == [] then []
    else (if Appends(toks[0]) then [Unescape(toks[0].value)] else []) + Positional(toks[1..])
  }

  lemma {:induction false} PositionalSnoc(toks: seq<Token>, tok: Token)
    ensures Positional(toks + [tok]) == Positional(toks) + (if Appends(tok) then [Unescape(tok.value)] else [])
  {
    var t := if Appends(tok) then [Unescape(tok.value)] else [];
    if toks == [] {
      assert toks + [tok] == [tok] && [tok][1..] == [];
      assert Positional([tok]) == t + [];
    } else {
      var all := toks + [tok];
      assert all[0] == toks[0] && all[1..] == toks[1..] + [tok];
      PositionalSnoc(toks[1..], tok);
      var h := if Appends(toks[0]) then [Unescape(toks[0].value)] else [];
      assert Positional(all) == h + (Positional(toks[1..]) + t);
      assert h + (Positional(toks[1..]) + t) == (h + Positional(toks[1..])) + t;
    }
  }

  /** Bare values are appended in the order they occur, and nothing else is. */
  lemma {:induction false} CollectPositional(toks: seq<Token>)
    ensures Collect(toks).positional == Positional(toks)
  {
    if toks != [] {
      var init := toks[..|toks| - 1];
      CollectPositional(init);
      PositionalSnoc(init, toks[|toks| - 1]);
      assert init + [toks[|toks| - 1]] == toks;
    }
  }

  /** One step adds the key the token defines and no other. */
  lemma AddKeys(acc: ParsedAtts, tok: Token, k: string)
    requires acc.Attrs?
    ensures k in Add(acc, tok).named <==> k in acc.named || Defines(tok, k)
  {
  }

  /** A key is present exactly when some token defines it. */
  lemma {:induction false} CollectNamedKeys(toks: seq<Token>, k: string)
    ensures k in Collect(toks).named <==> exists i :: 0 <= i < |toks| && Defines(toks[i], k)
  {
    if toks != [] {
      var n := |toks| - 1;
      var init := toks[..n];
      CollectNamedKeys(init, k);
      AddKeys(Collect(init), toks[n], k);
      assert Collect(toks) == Add(Collect(init), toks[n]);
      assert forall i :: 0 <= i < n ==> init[i] == toks[i];
      if !Defines(toks[n], k) && exists i :: 0 <= i < |toks| && Defines(toks[i], k) {
        var i :| 0 <= i < |toks| && Defines(toks[i], k);
        assert Defines(init[i], k);
      }
    }
  }

  /** The value of a key comes from the last token defining it: a later
      duplicate overwrites an earlier one. */
  lemma {:induction false} CollectNamedValue(toks: seq<Token>, k: string, i: nat)
    requires i < |toks| && Defines(toks[i], k)
    requires forall j :: i < j < |toks| ==> !Defines(toks[j], k)
    ensures k in Collect(toks).named && Collect(toks).named[k] == Unescape(toks[i].value)
  {
    var n := |toks| - 1;
    var init := toks[..n];
    if i < n {
      assert init[i] == toks[i];
      CollectNamedValue(init, k, i);
    }
  }

  /** Every character of `t` is white space (`\s`). */
  predicate Blank(t: string) {
    forall j :: 0 <= j < |t| ==> IsSpace(t[j])
  }

  /** The array form is returned exactly when the normalised text holds a
      non-blank character; otherwise the result is the text, left-trimmed. */
  lemma ParseFallback(text: string)
    ensures ParseAttsOf(text).Scalar? <==> Blank(Normalize(text))
    ensures ParseAttsOf(text).Scalar? ==> ParseAttsOf(text).text == LTrim(Normalize(text))
  {
    var t := Normalize(text);
    var toks := Tokens(t, 0);
    NoTokensIffBlank(t, 0);
    assert toks == [] <==> Blank(t);
    if toks != [] {
      assert ParseAttsOf(text) == Collect(toks);
    }
  }
}
