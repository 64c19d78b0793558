/** The shortcode pattern of `get_shortcode_regex`, written as a scanner.

    The pattern is `\[(\[?)(tag1|tag2|...)(?![\w-])(atts)(?:(\/)\]|\](?:(body)\[\/\2\])?)(\]?)`
    with six groups: 1 an escaping `[`, 2 the tag name, 3 the raw attribute
    text, 4 the self-closing `/`, 5 the enclosed body, 6 an escaping `]`.
    Everything after the tag name is deterministic (the attribute text runs to
    the first `]`, the body possessively to the first `[/name]`), so the only
    backtracking PCRE does is over group 1 (first with the second `[`, then
    without) and over the alternatives of group 2 (in registry order). The
    scanner below makes exactly those choices, in that order. */
module Scanner {
  import opened Php

  /** One occurrence of the pattern. `text` is group 0; `body` is "" when
      group 5 did not take part, as in the PHP match array. */
  datatype Match = Match(
    start: nat,
    text: string,
    escOpen: bool,
    name: string,
    atts: string,
    selfClosing: bool,
    body: string,
    closed: bool,
    escClose: bool)
  {
    function End(): nat { start + |text| }
    function NameStart(): nat { start + 1 + (if escOpen then 1 else 0) }
    function BodyStart(): nat { NameStart() + |name| + |atts| + 1 }
    predicate Escaped() { escOpen && escClose }
  }

  function CloseTag(name: string): string { "[/" + name + "]" }

  /** The tag without its escape brackets: name, attributes, terminator and,
      for the enclosing form, body and closing tag. */
  function Core(m: Match): string {
    m.name + m.atts + Tail(m)
  }

  /** Terminator, body and closing tag. */
  function Tail(m: Match): string {
    if m.selfClosing then "/]" else if m.closed then "]" + m.body + CloseTag(m.name) else "]"
  }

  /** The text a match record stands for. */
  function Render(m: Match): string {
    Opening(m.escOpen) + Core(m) + Closing(m.escClose)
  }

  /** The opening bracket, doubled when group 1 is set. */
  function Opening(esc: bool): string { if esc then "[[" else "[" }

  /** The closing escape of group 6. */
  function Closing(esc: bool): string { if esc then "]" else "" }

  /** The alternation of group 2. `join('|', [])` is the empty alternative,
      which matches the empty name. */
  function Alts(tags: seq<string>): seq<string> {
    if tags == [] then [""] else tags
  }

  /** Name `t` at offset `p`, not followed by a word character or a hyphen. */
  predicate NameFits(s: string, p: nat, t: string) {
    PrefixAt(s, p, t) && (p + |t| == |s| || !(IsWord(s[p + |t|]) || s[p + |t|] == '-'))
  }

  /** The pattern succeeds with name `t` at offset `p`: after the name only a
      closing bracket somewhere further on is needed. */
  predicate Fits(s: string, p: nat, t: string) {
    NameFits(s, p, t) && ']' in s[p + |t|..]
  }

  /** Some alternative of `alts` fits at `p`. */
  predicate AnyFits(alts: seq<string>, s: string, p: nat) {
    exists j :: 0 <= j < |alts| && Fits(s, p, alts[j])
  }

  /** `name` is the first alternative of `alts` that fits at `p`. */
  predicate FirstFit(alts: seq<string>, s: string, p: nat, name: string) {
    exists j :: 0 <= j < |alts| && alts[j] == name && Fits(s, p, name) &&
      forall j' :: 0 <= j' < j ==> !Fits(s, p, alts[j'])
  }

  /** What a match found at `m.start` in `s` looks like. */
  predicate Shape(s: string, m: Match) {
    Spans(s, m) && AttsShape(m) && BodyShape(s, m) && (!m.escClose ==> m.End() == |s| || s[m.End()] != ']')
  }

  /** The record covers its text in `s`, and the text is what the record renders to. */
  predicate Spans(s: string, m: Match) {
    m.End() <= |s| && s[m.start..m.End()] == m.text && m.text == Render(m)
    && NameFits(s, m.NameStart(), m.name)
  }

  /** Group 3 never holds a closing bracket, and ends in `/` only when group 4
      (the self-closing `/`) is set. */
  predicate AttsShape(m: Match) {
    ']' !in m.atts
    && (!m.selfClosing ==> m.atts == [] || m.atts[|m.atts| - 1] != '/')
    && (m.selfClosing ==> !m.closed)
    && (!m.closed ==> m.body == "")
  }

  /** Group 5 ends at the first closing tag for this name; when none follows
      the opening tag, the match stops after the opening tag. */
  predicate BodyShape(s: string, m: Match) {
    (!m.selfClosing ==>
       forall q :: m.BodyStart() <= q < m.BodyStart() + |m.body| ==> !PrefixAt(s, q, CloseTag(m.name)))
    && (!m.selfClosing && !m.closed ==>
       forall q :: m.BodyStart() <= q <= |s| ==> !PrefixAt(s, q, CloseTag(m.name)))
  }

  lemma RenderLength(m: Match)
    requires !m.closed ==> m.body == ""
    requires m.selfClosing ==> !m.closed
    ensures |Render(m)| >= 2 + |m.body|
  {}

  function NameAt(i: nat, esc: bool): nat { i + 1 + (if esc then 1 else 0) }

  /** The rest of the pattern once group 1 and the name are chosen. */
  function Finish(s: string, i: nat, esc: bool, name: string): (r: Option<Match>)
    requires i < |s| && s[i] == '[' && (esc ==> i + 1 < |s| && s[i + 1] == '[')
    ensures r.Some? ==> NameFits(s, NameAt(i, esc), name)
    ensures r.Some? ==> r.value.start == i && r.value.escOpen == esc && r.value.name == name && r.value.End() <= |s|
  {
    var p := NameAt(i, esc);
    if !NameFits(s, p, name) then None
    else
      match FindChar(s, p + |name|, ']')
      case None => None
      case Some(k) =>
        FindCharFirst(s, p + |name|, ']');
        Some(Build(s, i, esc, name, k))
  }

  /** The requirements on `Build`: the name fits after group 1 and `k` is the
      first closing bracket after it. */
  predicate BuildArgs(s: string, i: nat, esc: bool, name: string, k: nat) {
    i < |s| && s[i] == '[' && (esc ==> i + 1 < |s| && s[i + 1] == '[') &&
    NameFits(s, NameAt(i, esc), name) && FindChar(s, NameAt(i, esc) + |name|, ']') == Some(k)
  }

  /** Group 4: the attribute text ends in `/` right before the bracket `k`. */
  predicate SelfClosingAt(s: string, nameEnd: nat, k: nat)
    requires nameEnd <= k < |s|
  {
    k > nameEnd && s[k - 1] == '/'
  }

  /** Where the closing tag starts. It is looked for only after a `]` that
      does not end a self-closing tag. */
  function CloserAt(s: string, name: string, k: nat, self: bool): Option<nat>
    requires k < |s|
  {
    if self then None else FindText(s, k + 1, CloseTag(name))
  }

  /** Offset just after the terminator, the body and the closing tag. */
  function BuildAfter(s: string, i: nat, esc: bool, name: string, k: nat): (after: nat)
    requires BuildArgs(s, i, esc, name, k)
    ensures k < after <= |s|
  {
    match CloserAt(s, name, k, SelfClosingAt(s, NameAt(i, esc) + |name|, k))
    case Some(f) => f + |CloseTag(name)|
    case None => k + 1
  }

  /** The match once the first closing bracket `k` after the name is known:
      `/]` or `]`, then the optional body and closing tag, then group 6. */
  function Build(s: string, i: nat, esc: bool, name: string, k: nat): (m: Match)
    requires BuildArgs(s, i, esc, name, k)
    ensures m.start == i && m.escOpen == esc && m.name == name && m.End() <= |s|
  {
    var nameEnd := NameAt(i, esc) + |name|;
    var self := SelfClosingAt(s, nameEnd, k);
    var found := CloserAt(s, name, k, self);
    var after := BuildAfter(s, i, esc, name, k);
    var escClose := after < |s| && s[after] == ']';
    var end := if escClose then after + 1 else after;
    var body := if found.Some? then s[k + 1..found.value] else "";
    Match(i, s[i..end], esc, name, s[nameEnd..if self then k - 1 else k], self, body, found.Some?, escClose)
  }

  lemma Join3(s: string, a: nat, b: nat, c: nat, d: nat, x: string, y: string, z: string)
    requires a <= b <= c <= d <= |s|
    requires s[a..b] == x && s[b..c] == y && s[c..d] == z
    ensures s[a..d] == x + y + z
  {
    assert s[a..d] == s[a..b] + s[b..c] + s[c..d];
  }

  function AttsEnd(m: Match): nat { m.NameStart() + |m.name| + |m.atts| }

  lemma BuildTail(s: string, i: nat, esc: bool, name: string, k: nat)
    requires BuildArgs(s, i, esc, name, k)
    ensures var m := Build(s, i, esc, name, k);
      AttsEnd(m) <= BuildAfter(s, i, esc, name, k) <= m.End() <= |s| &&
      s[AttsEnd(m)..BuildAfter(s, i, esc, name, k)] == Tail(m)
  {
    var m := Build(s, i, esc, name, k);
    if m.selfClosing {
      BuildTailSelf(s, i, esc, name, k);
    } else if m.closed {
      BuildTailClosed(s, i, esc, name, k);
    } else {
      BuildTailOpen(s, i, esc, name, k);
    }
  }

  /** `BuildTail` for the self-closing form `/]`. */
  lemma BuildTailSelf(s: string, i: nat, esc: bool, name: string, k: nat)
    requires BuildArgs(s, i, esc, name, k) && Build(s, i, esc, name, k).selfClosing
    ensures var m := Build(s, i, esc, name, k);
      AttsEnd(m) <= BuildAfter(s, i, esc, name, k) <= m.End() <= |s| &&
      s[AttsEnd(m)..BuildAfter(s, i, esc, name, k)] == Tail(m)
  {
    var m := Build(s, i, esc, name, k);
    assert AttsEnd(m) == k - 1 && BuildAfter(s, i, esc, name, k) == k + 1;
    SliceOfTwo(s, k - 1);
  }

  /** `BuildTail` for the enclosing form with its closing tag. */
  lemma BuildTailClosed(s: string, i: nat, esc: bool, name: string, k: nat)
    requires BuildArgs(s, i, esc, name, k) && Build(s, i, esc, name, k).closed
    ensures var m := Build(s, i, esc, name, k);
      AttsEnd(m) <= BuildAfter(s, i, esc, name, k) <= m.End() <= |s| &&
      s[AttsEnd(m)..BuildAfter(s, i, esc, name, k)] == Tail(m)
  {
    var m := Build(s, i, esc, name, k);
    var after := BuildAfter(s, i, esc, name, k);
    var f := FindText(s, k + 1, CloseTag(name)).value;
    assert AttsEnd(m) == k && after == f + |CloseTag(name)| && m.body == s[k + 1..f];
    SliceOfOne(s, k);
    assert s[f..after] == CloseTag(name);
    Join3(s, k, k + 1, f, after, "]", m.body, CloseTag(name));
  }

  /** `BuildTail` for an opening tag without a closing tag. */
  lemma BuildTailOpen(s: string, i: nat, esc: bool, name: string, k: nat)
    requires BuildArgs(s, i, esc, name, k)
    requires !Build(s, i, esc, name, k).selfClosing && !Build(s, i, esc, name, k).closed
    ensures var m := Build(s, i, esc, name, k);
      AttsEnd(m) <= BuildAfter(s, i, esc, name, k) <= m.End() <= |s| &&
      s[AttsEnd(m)..BuildAfter(s, i, esc, name, k)] == Tail(m)
  {
    var m := Build(s, i, esc, name, k);
    assert AttsEnd(m) == k && BuildAfter(s, i, esc, name, k) == k + 1;
    SliceOfOne(s, k);
  }

  lemma SliceOfOne(s: string, a: nat)
    requires a < |s|
    ensures s[a..a + 1] == [s[a]]
  {
  }

  lemma SliceOfTwo(s: string, a: nat)
    requires a + 1 < |s|
    ensures s[a..a + 2] == [s[a], s[a + 1]]
  {
  }

  lemma BuildCore(s: string, i: nat, esc: bool, name: string, k: nat)
    requires BuildArgs(s, i, esc, name, k)
    ensures var m := Build(s, i, esc, name, k);
      m.End() <= |s| && NameAt(i, esc) <= BuildAfter(s, i, esc, name, k) <= m.End() &&
      Core(m) == s[NameAt(i, esc)..BuildAfter(s, i, esc, name, k)]
  {
    var m := Build(s, i, esc, name, k);
    BuildHead(s, i, esc, name, k);
    BuildTail(s, i, esc, name, k);
    CoreJoin(s, m, BuildAfter(s, i, esc, name, k));
  }

  /** The name and the attributes of a built match lie in `s` one after the other. */
  lemma BuildHead(s: string, i: nat, esc: bool, name: string, k: nat)
    requires BuildArgs(s, i, esc, name, k)
    ensures var m := Build(s, i, esc, name, k);
      m.NameStart() == NameAt(i, esc) && m.name == name && AttsEnd(m) <= k &&
      s[m.NameStart()..m.NameStart() + |m.name|] == m.name &&
      s[m.NameStart() + |m.name|..AttsEnd(m)] == m.atts
  {
    var m := Build(s, i, esc, name, k);
    var nameEnd := NameAt(i, esc) + |name|;
    var e := if SelfClosingAt(s, nameEnd, k) then k - 1 else k;
    assert m.atts == s[nameEnd..e];
    assert m.NameStart() + |m.name| == nameEnd && AttsEnd(m) == e;
  }

  /** Name, attributes and tail lying one after the other in `s` make up the core. */
  lemma CoreJoin(s: string, m: Match, after: nat)
    requires AttsEnd(m) <= after <= |s|
    requires s[m.NameStart()..m.NameStart() + |m.name|] == m.name
    requires s[m.NameStart() + |m.name|..AttsEnd(m)] == m.atts
    requires s[AttsEnd(m)..after] == Tail(m)
    ensures Core(m) == s[m.NameStart()..after]
  {
    Join3(s, m.NameStart(), m.NameStart() + |m.name|, AttsEnd(m), after, m.name, m.atts, Tail(m));
  }

  /** Group 0 of a built match: its offsets and the closing escape. */
  lemma BuildText(s: string, i: nat, esc: bool, name: string, k: nat)
    requires BuildArgs(s, i, esc, name, k)
    ensures var m := Build(s, i, esc, name, k);
      var after := BuildAfter(s, i, esc, name, k);
      m.start == i && m.escOpen == esc && m.End() <= |s| && m.text == s[i..m.End()] &&
      m.End() == after + (if m.escClose then 1 else 0) && (m.escClose ==> after < |s| && s[after] == ']')
  {
  }

  /** A match whose pieces lie in `s` one after the other lies in `s` as its
      rendering. */
  lemma RenderAt(s: string, m: Match, after: nat)
    requires m.NameStart() <= after && m.End() == after + (if m.escClose then 1 else 0) && m.End() <= |s|
    requires s[m.start] == '[' && (m.escOpen ==> s[m.start + 1] == '[')
    requires s[m.NameStart()..after] == Core(m)
    requires m.escClose ==> s[after] == ']'
    ensures s[m.start..m.End()] == Render(m)
  {
    if m.escOpen {
      SliceOfTwo(s, m.start);
    } else {
      SliceOfOne(s, m.start);
    }
    if m.escClose {
      SliceOfOne(s, after);
    }
    Join3(s, m.start, m.NameStart(), after, m.End(), Opening(m.escOpen), Core(m), Closing(m.escClose));
  }

  lemma BuildRender(s: string, i: nat, esc: bool, name: string, k: nat)
    requires BuildArgs(s, i, esc, name, k)
    ensures var m := Build(s, i, esc, name, k);
      m.End() <= |s| && s[m.start..m.End()] == m.text && m.text == Render(m)
  {
    var m := Build(s, i, esc, name, k);
    BuildCore(s, i, esc, name, k);
    BuildText(s, i, esc, name, k);
    assert NameAt(i, esc) == m.NameStart();
    RenderAt(s, m, BuildAfter(s, i, esc, name, k));
  }

  lemma BuildAtts(s: string, i: nat, esc: bool, name: string, k: nat)
    requires BuildArgs(s, i, esc, name, k)
    ensures AttsShape(Build(s, i, esc, name, k))
  {
    var m := Build(s, i, esc, name, k);
    var nameEnd := NameAt(i, esc) + |name|;
    FindCharFirst(s, nameEnd, ']');
    var e := if SelfClosingAt(s, nameEnd, k) then k - 1 else k;
    assert m.atts == s[nameEnd..e];
    forall q | 0 <= q < |m.atts| ensures m.atts[q] != ']' {
      assert m.atts[q] == s[nameEnd + q];
    }
  }

  lemma BuildBody(s: string, i: nat, esc: bool, name: string, k: nat)
    requires BuildArgs(s, i, esc, name, k)
    ensures BodyShape(s, Build(s, i, esc, name, k))
  {
    var m := Build(s, i, esc, name, k);
    FindTextFirst(s, k + 1, CloseTag(name));
    assert !m.selfClosing ==> m.BodyStart() == k + 1;
  }

  lemma BuildShape(s: string, i: nat, esc: bool, name: string, k: nat)
    requires BuildArgs(s, i, esc, name, k)
    ensures var m := Build(s, i, esc, name, k);
      m.start == i && m.escOpen == esc && m.name == name && Shape(s, m)
  {
    var m := Build(s, i, esc, name, k);
    BuildRender(s, i, esc, name, k);
    assert m.NameStart() == NameAt(i, esc);
    BuildAtts(s, i, esc, name, k);
    BuildBody(s, i, esc, name, k);
    BuildEscClose(s, i, esc, name, k);
  }

  /** Group 6 is left unset only when no `]` follows the match. */
  lemma BuildEscClose(s: string, i: nat, esc: bool, name: string, k: nat)
    requires BuildArgs(s, i, esc, name, k)
    ensures var m := Build(s, i, esc, name, k);
      !m.escClose ==> m.End() == |s| || s[m.End()] != ']'
  {
    BuildText(s, i, esc, name, k);
  }

  /** The rest of the pattern succeeds exactly when the name fits and a
      closing bracket follows somewhere; the match it yields has the shape
      PCRE gives it. */
  lemma FinishSpec(s: string, i: nat, esc: bool, name: string)
    requires i < |s| && s[i] == '[' && (esc ==> i + 1 < |s| && s[i + 1] == '[')
    ensures var r := Finish(s, i, esc, name);
      (r.Some? <==> Fits(s, NameAt(i, esc), name)) &&
      (r.Some? ==> r.value.start == i && r.value.escOpen == esc && r.value.name == name && Shape(s, r.value))
  {
    var p := NameAt(i, esc);
    if NameFits(s, p, name) {
      var f := FindChar(s, p + |name|, ']');
      if f.None? {
        FinishWithoutBracket(s, i, esc, name);
      } else {
        FinishWithBracket(s, i, esc, name, f.value);
        BuildShape(s, i, esc, name, f.value);
      }
    }
  }

  /** `FinishSpec` when no closing bracket follows the name. */
  lemma FinishWithoutBracket(s: string, i: nat, esc: bool, name: string)
    requires i < |s| && s[i] == '[' && (esc ==> i + 1 < |s| && s[i + 1] == '[')
    requires NameFits(s, NameAt(i, esc), name) && FindChar(s, NameAt(i, esc) + |name|, ']').None?
    ensures Finish(s, i, esc, name).None? && !Fits(s, NameAt(i, esc), name)
  {
    var nameEnd := NameAt(i, esc) + |name|;
    FindCharFirst(s, nameEnd, ']');
    forall q | 0 <= q < |s[nameEnd..]| ensures s[nameEnd..][q] != ']' {
      assert s[nameEnd..][q] == s[nameEnd + q];
    }
  }

  /** `FinishSpec` when the first closing bracket after the name is at `k`. */
  lemma FinishWithBracket(s: string, i: nat, esc: bool, name: string, k: nat)
    requires BuildArgs(s, i, esc, name, k)
    ensures Finish(s, i, esc, name) == Some(Build(s, i, esc, name, k))
    ensures Fits(s, NameAt(i, esc), name)
  {
    var nameEnd := NameAt(i, esc) + |name|;
    assert s[nameEnd..][k - nameEnd] == ']';
  }

  /** Try the alternatives of group 2 in order, for one choice of group 1. */
  function TryName(alts: seq<string>, s: string, i: nat, esc: bool): (r: Option<Match>)
    requires i < |s| && s[i] == '[' && (esc ==> i + 1 < |s| && s[i + 1] == '[')
    ensures r.Some? ==> r.value.start == i && r.value.escOpen == esc && r.value.name in alts
    decreases |alts|
  {
    if alts == [] then None
    else
      var m := Finish(s, i, esc, alts[0]);
      if m.Some? then m else TryName(alts[1..], s, i, esc)
  }

  /** The alternation succeeds exactly when some alternative fits, and then
      with the first one that does. */
  lemma {:induction false} TryNameSpec(alts: seq<string>, s: string, i: nat, esc: bool)
    requires i < |s| && s[i] == '[' && (esc ==> i + 1 < |s| && s[i + 1] == '[')
    ensures var r := TryName(alts, s, i, esc);
      (r.Some? <==> AnyFits(alts, s, NameAt(i, esc))) &&
      (r.Some? ==> r.value.start == i && r.value.escOpen == esc && Shape(s, r.value)) &&
      (r.Some? ==> r.value.name in alts && FirstFit(alts, s, NameAt(i, esc), r.value.name))
    decreases |alts|
  {
    if alts != [] {
      var p := NameAt(i, esc);
      FinishSpec(s, i, esc, alts[0]);
      var m := Finish(s, i, esc, alts[0]);
      if m.Some? {
        assert FirstFit(alts, s, p, alts[0]) by {
          assert alts[0] == m.value.name && Fits(s, p, alts[0]);
        }
      } else {
        TryNameSpec(alts[1..], s, i, esc);
        var r := TryName(alts[1..], s, i, esc);
        assert TryName(alts, s, i, esc) == r;
        if r.Some? {
          var j :| 0 <= j < |alts[1..]| && alts[1..][j] == r.value.name && Fits(s, p, r.value.name) &&
            forall j' :: 0 <= j' < j ==> !Fits(s, p, alts[1..][j']);
          assert alts[j + 1] == r.value.name;
          forall j' | 0 <= j' < j + 1 ensures !Fits(s, p, alts[j']) {
            if j' > 0 { assert alts[j'] == alts[1..][j' - 1]; }
          }
          assert FirstFit(alts, s, p, r.value.name);
        } else {
          forall j | 0 <= j < |alts| ensures !Fits(s, p, alts[j]) {
            if j > 0 { assert alts[j] == alts[1..][j - 1]; }
          }
        }
      }
    }
  }

  /** The pattern anchored at offset `i`: the match PCRE finds there, if any.
      Group 1 is tried first with the second `[`, then without. */
  function TryAt(alts: seq<string>, s: string, i: nat): (r: Option<Match>)
    requires i <= |s|
    ensures r.Some? ==> i < |s| && s[i] == '[' && r.value.start == i && r.value.name in alts
  {
    if i < |s| && s[i] == '[' then
      var first := if i + 1 < |s| && s[i + 1] == '[' then TryName(alts, s, i, true) else None;
      if first.Some? then first else TryName(alts, s, i, false)
    else None
  }

  /** The pattern matches at `i` exactly when `i` holds `[` and some
      alternative fits after it (or after a second `[`); the match starts at
      `i`, has the shape PCRE gives it, takes the first alternative that fits,
      and sets group 1 exactly when a name fits after `[[`. */
  lemma TryAtSpec(alts: seq<string>, s: string, i: nat)
    requires i <= |s|
    ensures var r := TryAt(alts, s, i);
      (r.Some? <==>
        i < |s| && s[i] == '[' &&
        (AnyFits(alts, s, i + 1) || (i + 1 < |s| && s[i + 1] == '[' && AnyFits(alts, s, i + 2)))) &&
      (r.Some? ==> r.value.start == i && Shape(s, r.value) && r.value.name in alts) &&
      (r.Some? ==> FirstFit(alts, s, r.value.NameStart(), r.value.name)) &&
      (r.Some? ==>
        (r.value.escOpen <==> i + 1 < |s| && s[i + 1] == '[' && AnyFits(alts, s, i + 2)))
  {
    if i < |s| && s[i] == '[' {
      TryNameSpec(alts, s, i, false);
      if i + 1 < |s| && s[i + 1] == '[' {
        TryNameSpec(alts, s, i, true);
      }
      if i + 1 < |s| && s[i + 1] == '[' && TryName(alts, s, i, true).Some? {
        TryAtEscaped(alts, s, i);
      } else {
        TryAtPlain(alts, s, i);
      }
    }
  }

  /** At `[[` where a name fits after both brackets, group 1 is taken. */
  lemma TryAtEscaped(alts: seq<string>, s: string, i: nat)
    requires i + 1 < |s| && s[i] == '[' && s[i + 1] == '[' && TryName(alts, s, i, true).Some?
    ensures TryAt(alts, s, i) == TryName(alts, s, i, true)
  {
  }

  /** Otherwise group 1 is left unset. */
  lemma TryAtPlain(alts: seq<string>, s: string, i: nat)
    requires i < |s| && s[i] == '['
    requires !(i + 1 < |s| && s[i + 1] == '[' && TryName(alts, s, i, true).Some?)
    ensures TryAt(alts, s, i) == TryName(alts, s, i, false)
  {
  }

  /** A match starts at `i`, ends inside the text, renders to its text,
      names one of the alternatives, and has a body shorter than its text. */
  lemma TryAtBounds(alts: seq<string>, s: string, i: nat)
    requires i <= |s| && TryAt(alts, s, i).Some?
    ensures var m := TryAt(alts, s, i).value;
      m.start == i && i < m.End() <= |s| && |m.body| < |m.text| && m.text == Render(m) && m.name in alts
  {
    TryAtSpec(alts, s, i);
    RenderLength(TryAt(alts, s, i).value);
  }

  /** `ms` are matches returned by `TryAt`, in order, each starting at or after
      the end of the previous one (the first at or after `i`). */
  predicate Tiled(alts: seq<string>, s: string, i: nat, ms: seq<Match>)
    decreases |ms|
  {
    ms == [] ||
    (i <= ms[0].start <= |s| && TryAt(alts, s, ms[0].start) == Some(ms[0]) &&
     Tiled(alts, s, ms[0].End(), ms[1..]))
  }

  /** Every match of a tiling is what `TryAt` finds at its start, lies after
      `i`, ends before the next one starts, and has a body shorter than its text. */
  lemma {:induction false} TiledAll(alts: seq<string>, s: string, i: nat, ms: seq<Match>)
    requires Tiled(alts, s, i, ms)
    ensures forall k :: 0 <= k < |ms| ==>
      i <= ms[k].start <= |s| && TryAt(alts, s, ms[k].start) == Some(ms[k]) &&
      ms[k].start < ms[k].End() <= |s| && |ms[k].body| < |ms[k].text|
    ensures forall k :: 0 <= k < |ms| - 1 ==> ms[k].End() <= ms[k + 1].start
    decreases |ms|
  {
    if ms != [] {
      var m := ms[0];
      TryAtBounds(alts, s, m.start);
      TiledAll(alts, s, m.End(), ms[1..]);
      forall k | 1 <= k < |ms| ensures ms[k] == ms[1..][k - 1] {}
    }
  }

  /** Offset `p` lies inside one of the matches. */
  predicate Covered(ms: seq<Match>, p: nat) {
    ms != [] && ((ms[0].start <= p < ms[0].End()) || Covered(ms[1..], p))
  }

  /** `preg_match_all` with the shortcode pattern from offset `i`: left to
      right, each match starting where the previous one ended. */
  function Scan(alts: seq<string>, s: string, i: nat): (r: seq<Match>)
    requires i <= |s|
    ensures |r| <= |s| - i
    decreases |s| - i
  {
    if i == |s| then []
    else
      match TryAt(alts, s, i)
      case Some(m) =>
        TryAtBounds(alts, s, i);
        [m] + Scan(alts, s, m.End())
      case None =>
        Scan(alts, s, i + 1)
  }

  /** Prepending a match keeps every covered offset covered, and covers the
      offsets of the new match. */
  lemma CoveredCons(m: Match, rest: seq<Match>, p: nat)
    requires (m.start <= p < m.End()) || Covered(rest, p)
    ensures Covered([m] + rest, p)
  {
    var r := [m] + rest;
    assert r[0] == m && r[1..] == rest;
  }

  /** One step of `Scan`: skip an offset without a match, or take the match
      there and continue after it. */
  lemma ScanStep(alts: seq<string>, s: string, i: nat)
    requires i < |s|
    ensures TryAt(alts, s, i).None? ==> Scan(alts, s, i) == Scan(alts, s, i + 1)
    ensures TryAt(alts, s, i).Some? ==>
      var m := TryAt(alts, s, i).value;
      m.start == i < m.End() <= |s| && Scan(alts, s, i) == [m] + Scan(alts, s, m.End())
  {
    if TryAt(alts, s, i).Some? {
      TryAtBounds(alts, s, i);
    }
  }

  /** No match is missed: every offset where the pattern matches lies inside
      one of the matches the scan returns. */
  lemma {:induction false} ScanCovers(alts: seq<string>, s: string, i: nat, p: nat)
    requires i <= p < |s| && TryAt(alts, s, p).Some?
    ensures Covered(Scan(alts, s, i), p)
    decreases |s| - i, 1
  {
    if TryAt(alts, s, i).None? {
      ScanCoversSkip(alts, s, i, p);
    } else {
      ScanCoversAt(alts, s, i, p);
    }
  }

  /** The case of `ScanCovers` where no match starts at `i`. */
  lemma {:induction false} ScanCoversSkip(alts: seq<string>, s: string, i: nat, p: nat)
    requires i <= p < |s| && TryAt(alts, s, p).Some? && TryAt(alts, s, i).None?
    ensures Covered(Scan(alts, s, i), p)
    decreases |s| - i, 0
  {
    assert i != p;
    ScanStep(alts, s, i);
    ScanCovers(alts, s, i + 1, p);
  }

  /** Every match `Scan` returns is the one the pattern finds where it
      starts, and each starts at or after the end of the one before. */
  lemma {:induction false} ScanTiled(alts: seq<string>, s: string, i: nat)
    requires i <= |s|
    ensures Tiled(alts, s, i, Scan(alts, s, i))
    decreases |s| - i
  {
    if i < |s| {
      ScanStep(alts, s, i);
      var t := TryAt(alts, s, i);
      if t.None? {
        ScanTiled(alts, s, i + 1);
      } else {
        var m := t.value;
        ScanTiled(alts, s, m.End());
        var r := Scan(alts, s, i);
        assert r[0] == m && r[1..] == Scan(alts, s, m.End());
      }
    }
  }

  /** The case of `ScanCovers` where a match starts at `i`. */
  lemma {:induction false} ScanCoversAt(alts: seq<string>, s: string, i: nat, p: nat)
    requires i <= p < |s| && TryAt(alts, s, p).Some? && TryAt(alts, s, i).Some?
    ensures Covered(Scan(alts, s, i), p)
    decreases |s| - i, 0
  {
    ScanStep(alts, s, i);
    var m := TryAt(alts, s, i).value;
    var rest := Scan(alts, s, m.End());
    if m.End() <= p {
      ScanCovers(alts, s, m.End(), p);
    }
    CoveredCons(m, rest, p);
  }

  /** The pattern matches nowhere in `[lo, hi)`. */
  predicate NoMatchIn(alts: seq<string>, s: string, lo: nat, hi: nat)
    requires hi <= |s|
  {
    forall p :: lo <= p < hi ==> TryAt(alts, s, p).None?
  }

  /** The scan is leftmost: nothing matches before its first match (or
      anywhere, when it finds none), and after a match it resumes exactly
      where that match ended. */
  lemma {:induction false} ScanLeftmost(alts: seq<string>, s: string, i: nat)
    requires i <= |s|
    ensures var r := Scan(alts, s, i);
      (r == [] ==> NoMatchIn(alts, s, i, |s|)) &&
      (r != [] ==> r[0].start < r[0].End() <= |s| && NoMatchIn(alts, s, i, r[0].start) && r[1..] == Scan(alts, s, r[0].End()))
    decreases |s| - i
  {
    if i < |s| {
      ScanStep(alts, s, i);
      var t := TryAt(alts, s, i);
      if t.None? {
        var r := Scan(alts, s, i + 1);
        assert Scan(alts, s, i) == r;
        ScanLeftmost(alts, s, i + 1);
        var hi := if r == [] then |s| else r[0].start;
        assert hi <= |s|;
        forall p | i <= p < hi ensures TryAt(alts, s, p).None? {
          if p > i {
            assert NoMatchIn(alts, s, i + 1, hi);
          }
        }
      } else {
        var m := t.value;
        var r := Scan(alts, s, i);
        assert r[0] == m && r[1..] == Scan(alts, s, m.End());
      }
    }
  }

  /** Conversely, where the pattern matches nowhere the scan finds nothing. */
  lemma {:induction false} ScanEmpty(alts: seq<string>, s: string, i: nat)
    requires i <= |s| && NoMatchIn(alts, s, i, |s|)
    ensures Scan(alts, s, i) == []
    decreases |s| - i
  {
    if i < |s| {
      assert TryAt(alts, s, i).None?;
      ScanEmpty(alts, s, i + 1);
    }
  }

  /** A matched name is whole: the character after it is neither a word
      character nor a hyphen, so a registered `foo` never matches in `[foobar]`. */
  lemma MatchedNameIsWhole(alts: seq<string>, s: string, i: nat)
    requires i <= |s| && TryAt(alts, s, i).Some?
    ensures NameFits(s, TryAt(alts, s, i).value.NameStart(), TryAt(alts, s, i).value.name)
  {
    TryAtSpec(alts, s, i);
  }
}
