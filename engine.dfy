/** The `Shortcodes` class: the tag registry, one rewrite pass with the
    shortcode pattern, the bounded expansion loop of `do_shortcode`, the
    single stripping pass of `strip_shortcodes`, detection with
    `has_shortcode`, and the schema resolver `shortcode_atts`. */
module Engine {
  import opened Php
  import opened Scanner
  import opened Attributes
  import opened Schema

  /** A shortcode handler: parsed attributes, enclosed content ("" when there
      is none) and tag name to replacement text. */
  type Handler = (ParsedAtts, string, string) -> string

  /** The value given to `add_shortcode`, which keeps it only when callable. */
  datatype HandlerValue = Callable(run: Handler) | NotCallable

  /** The hook `apply_filters("shortcode_atts_$shortcode", $out, $pairs, $atts)`. */
  type AttsFilter = (string, seq<(string, Value)>, seq<(string, Entry)>, map<string, string>) -> seq<(string, Value)>

  /** The callback a rewrite pass applies to each match. */
  datatype Rewrite = DoTags(handlers: map<string, Handler>) | StripTags

  /** The pass can dispatch every name the pattern may match. */
  predicate Handles(rw: Rewrite, alts: seq<string>) {
    rw.DoTags? ==> forall t :: t in alts ==> t in rw.handlers
  }

  function Bracket(present: bool, c: char): string {
    if present then [c] else []
  }

  /** How many characters group 1 (`front`) or group 6 (`!front`) takes. */
  function EscLen(m: Match, front: bool): nat {
    if (if front then m.escOpen else m.escClose) then 1 else 0
  }

  /** The tag proper inside an unescaped match: everything but the stray
      escape bracket it may carry on one side. */
  lemma TagProper(m: Match)
    requires m.text == Render(m) && !m.Escaped()
    ensures EscLen(m, true) + EscLen(m, false) <= |m.text|
    ensures m.text[EscLen(m, true)..|m.text| - EscLen(m, false)] == "[" + Core(m)
    ensures m.text[..EscLen(m, true)] == Bracket(m.escOpen, '[')
    ensures m.text[|m.text| - EscLen(m, false)..] == Bracket(m.escClose, ']')
  {
    if m.escOpen {
      assert m.text == "[" + ("[" + Core(m));
    } else if m.escClose {
      assert m.text == ("[" + Core(m)) + "]";
    } else {
      assert m.text == "[" + Core(m);
    }
  }

  /** A doubly escaped tag is the literal tag wrapped in one more pair of
      brackets. */
  lemma TagEscaped(m: Match)
    requires m.text == Render(m) && m.Escaped()
    ensures 2 <= |m.text| && m.text[1..|m.text| - 1] == "[" + Core(m)
  {
    var c := "[" + Core(m);
    assert m.text == "[" + c + "]";
    assert |m.text| == |c| + 2;
    assert forall k :: 0 <= k < |c| ==> m.text[1 + k] == c[k];
  }

  /** `do_shortcode_tag`: an escaped match comes out as the literal tag with
      one bracket removed on each side; in any other match the tag proper is
      replaced by the handler's output and the stray escape bracket stays. */
  function DoShortcodeTag(handlers: map<string, Handler>, m: Match): (r: string)
    requires m.text == Render(m) && m.name in handlers
    ensures m.Escaped() ==> r == "[" + Core(m)
    ensures !m.Escaped() ==> (EscLen(m, true) + EscLen(m, false) <= |m.text| &&
      m.text[EscLen(m, true)..|m.text| - EscLen(m, false)] == "[" + Core(m) &&
      r == m.text[..EscLen(m, true)] + handlers[m.name](ParseAttsOf(m.atts), m.body, m.name) + m.text[|m.text| - EscLen(m, false)..])
  {
    if m.Escaped() then
      TagEscaped(m);
      m.text[1..|m.text| - 1]
    else
      TagProper(m);
      Bracket(m.escOpen, '[') + handlers[m.name](ParseAttsOf(m.atts), m.body, m.name) + Bracket(m.escClose, ']')
  }

  /** `strip_shortcode_tag`: an escaped match comes out as the literal tag
      with one bracket removed on each side; of any other match only the
      stray escape bracket stays, so it always gets shorter. */
  function StripShortcodeTag(m: Match): (r: string)
    requires m.text == Render(m)
    ensures m.Escaped() ==> r == "[" + Core(m)
    ensures !m.Escaped() ==> (EscLen(m, true) + EscLen(m, false) <= |m.text| &&
      r == m.text[..EscLen(m, true)] + m.text[|m.text| - EscLen(m, false)..])
    ensures |r| < |m.text|
  {
    if m.Escaped() then
      TagEscaped(m);
      m.text[1..|m.text| - 1]
    else
      TagProper(m);
      Bracket(m.escOpen, '[') + Bracket(m.escClose, ']')
  }

  /** On an escaped tag expanding and stripping agree, whatever the handlers. */
  lemma EscapedTagIsLiteral(handlers: map<string, Handler>, m: Match)
    requires m.text == Render(m) && m.name in handlers
    requires m.Escaped()
    ensures DoShortcodeTag(handlers, m) == StripShortcodeTag(m)
  {
  }

  function Image(rw: Rewrite, m: Match): string
    requires m.text == Render(m) && (rw.DoTags? ==> m.name in rw.handlers)
  {
    match rw
    case DoTags(h) => DoShortcodeTag(h, m)
    case StripTags => StripShortcodeTag(m)
  }

  /** With a single match, the text before it, its image and the text after
      it are spliced together. */
  lemma SpliceOne(alts: seq<string>, rw: Rewrite, s: string, i: nat, m: Match)
    requires i <= |s| && Handles(rw, alts) && Tiled(alts, s, i, [m])
    ensures i <= m.start && m.End() <= |s| && m.text == Render(m)
    ensures (rw.DoTags? ==> m.name in rw.handlers) &&
      Splice(alts, s, i, [m], rw) == s[i..m.start] + Image(rw, m) + s[m.End()..]
  {
    TryAtBounds(alts, s, m.start);
    assert [m][1..] == [];
  }

  /** `preg_replace_callback` over the matches `ms` from offset `i`: text
      between matches is copied, each match is replaced by its image. */
  function Splice(alts: seq<string>, s: string, i: nat, ms: seq<Match>, rw: Rewrite): (r: string)
    requires i <= |s| && Tiled(alts, s, i, ms) && Handles(rw, alts)
    ensures ms == [] ==> r == s[i..]
    ensures ms != [] ==> i <= ms[0].start <= |s| && ms[0].start - i <= |r| && r[..ms[0].start - i] == s[i..ms[0].start]
    decreases |ms|
  {
    if ms == [] then s[i..]
    else
      TryAtBounds(alts, s, ms[0].start);
      s[i..ms[0].start] + Image(rw, ms[0]) + Splice(alts, s, ms[0].End(), ms[1..], rw)
  }

  /** One rewrite pass with the pattern built from `tags`. */
  function Pass(tags: seq<string>, rw: Rewrite, s: string): (r: string)
    requires Handles(rw, Alts(tags))
    ensures rw == StripTags ==> |r| <= |s|
    ensures rw == StripTags && Scan(Alts(tags), s, 0) != [] ==> |r| < |s|
  {
    ScanTiled(Alts(tags), s, 0);
    StripShrinks(Alts(tags), s, 0, Scan(Alts(tags), s, 0));
    Splice(Alts(tags), s, 0, Scan(Alts(tags), s, 0), rw)
  }

  /** A pass leaves text in which the pattern finds nothing unchanged. */
  lemma PassWithoutMatches(tags: seq<string>, rw: Rewrite, s: string)
    requires Handles(rw, Alts(tags))
    requires forall p :: 0 <= p < |s| ==> TryAt(Alts(tags), s, p).None?
    ensures Pass(tags, rw, s) == s
  {
    var ms := Scan(Alts(tags), s, 0);
    ScanTiled(Alts(tags), s, 0);
    if ms != [] {
      assert false;
    }
  }

  /** Stripping never lengthens the text, and shortens it when something matched. */
  lemma {:induction false} StripShrinks(alts: seq<string>, s: string, i: nat, ms: seq<Match>)
    requires i <= |s| && Tiled(alts, s, i, ms)
    ensures |Splice(alts, s, i, ms, StripTags)| <= |s| - i
    ensures ms != [] ==> |Splice(alts, s, i, ms, StripTags)| < |s| - i
    decreases |ms|
  {
    if ms != [] {
      var m := ms[0];
      TryAtBounds(alts, s, m.start);
      StripShrinks(alts, s, m.End(), ms[1..]);
      if m.escOpen && m.escClose {
        assert |StripShortcodeTag(m)| == |m.text| - 2;
      }
    }
  }

  /** A handler that always returns "". */
  ghost predicate Silent(h: Handler) {
    forall a, c, t :: h(a, c, t) == ""
  }

  /** Stripping is expanding with handlers that all return "". */
  lemma {:induction false} StripIsSilentExpansion(alts: seq<string>, s: string, i: nat, ms: seq<Match>, handlers: map<string, Handler>)
    requires i <= |s| && Tiled(alts, s, i, ms) && Handles(DoTags(handlers), alts)
    requires forall t :: t in handlers ==> Silent(handlers[t])
    ensures Splice(alts, s, i, ms, StripTags) == Splice(alts, s, i, ms, DoTags(handlers))
    decreases |ms|
  {
    if ms != [] {
      var m := ms[0];
      TryAtBounds(alts, s, m.start);
      StripIsSilentExpansion(alts, s, m.End(), ms[1..], handlers);
      assert Image(StripTags, m) == Image(DoTags(handlers), m) by {
        if !(m.escOpen && m.escClose) {
          assert Silent(handlers[m.name]);
          assert handlers[m.name](ParseAttsOf(m.atts), m.body, m.name) == "";
        }
      }
    }
  }

  /** `has_shortcode($content, $tag)`: a `[` must occur, a requested tag must
      be registered, the pattern must match, and then a requested tag must be
      the name of some match or be found, recursively, in a match's body. */
  function Has(tags: seq<string>, s: string, tag: Option<string>): (r: bool)
    ensures r ==> '[' in s && Scan(Alts(tags), s, 0) != [] && (tag.Some? ==> tag.value in tags)
    decreases |s|
  {
    if '[' !in s then false
    else if tag.Some? && tag.value !in tags then false
    else
      var ms := Scan(Alts(tags), s, 0);
      if ms == [] then false
      else if tag.None? then true
      else
        ScanTiled(Alts(tags), s, 0);
        TiledAll(Alts(tags), s, 0, ms);
        exists k :: 0 <= k < |ms| && (ms[k].name == tag.value || (!PhpEmpty(ms[k].body) && Has(tags, ms[k].body, tag)))
  }

  /** Without a tag, detection is exactly "the pattern matches somewhere". */
  lemma HasAnyIffMatch(tags: seq<string>, s: string)
    ensures Has(tags, s, None) <==> Scan(Alts(tags), s, 0) != []
  {
    var ms := Scan(Alts(tags), s, 0);
    if ms != [] {
      ScanTiled(Alts(tags), s, 0);
      TiledAll(Alts(tags), s, 0, ms);
      assert s[ms[0].start] == '[';
    }
  }

  /** A registered tag inside the body of another match is detected, not
      only one at top level. */
  lemma HasNested(tags: seq<string>, s: string, t: string, k: nat, k2: nat)
    requires t in tags
    requires k < |Scan(Alts(tags), s, 0)|
    requires !PhpEmpty(Scan(Alts(tags), s, 0)[k].body)
    requires k2 < |Scan(Alts(tags), Scan(Alts(tags), s, 0)[k].body, 0)|
    requires Scan(Alts(tags), Scan(Alts(tags), s, 0)[k].body, 0)[k2].name == t
    ensures Has(tags, s, Some(t))
  {
    var ms := Scan(Alts(tags), s, 0);
    var body := ms[k].body;
    var inner := Scan(Alts(tags), body, 0);
    ScanTiled(Alts(tags), s, 0);
    ScanTiled(Alts(tags), body, 0);
    TiledAll(Alts(tags), s, 0, ms);
    TiledAll(Alts(tags), body, 0, inner);
    assert body[inner[k2].start] == '[';
    assert Has(tags, body, Some(t));
    assert s[ms[0].start] == '[';
  }

  /** The do-while loop of `do_shortcode`, for any pass `step` and any test
      `more`, counting passes in `loop`: run a pass, and go on while fewer
      than ten have run and `more` holds of the result. */
  function Loop(step: string -> string, more: string -> bool, s: string, loop: nat): (r: string)
    requires loop < 10
    ensures r == Iterate(step, s, Rounds(step, more, s, loop))
    decreases 10 - loop
  {
    var c := step(s);
    if loop + 1 < 10 && more(c) then
      assert Iterate(step, s, 1 + Rounds(step, more, c, loop + 1)) == Iterate(step, c, Rounds(step, more, c, loop + 1));
      Loop(step, more, c, loop + 1)
    else
      assert Iterate(step, s, 1) == c;
      c
  }

  /** `n` passes in a row. */
  function Iterate(step: string -> string, s: string, n: nat): string
    decreases n
  {
    if n == 0 then s else Iterate(step, step(s), n - 1)
  }

  /** How many passes the loop runs from pass number `loop`. */
  function Rounds(step: string -> string, more: string -> bool, s: string, loop: nat): nat
    requires loop < 10
    decreases 10 - loop
  {
    var c := step(s);
    if loop + 1 < 10 && more(c) then 1 + Rounds(step, more, c, loop + 1) else 1
  }

  /** Running `n` passes on `s` is where a loop allowed `bound` passes stops:
      at least one pass runs, `more` holds after every earlier pass, and
      stopping before the bound means it no longer holds. */
  ghost predicate Settles(step: string -> string, more: string -> bool, s: string, n: nat, bound: nat) {
    1 <= n <= bound &&
    (n < bound ==> !more(Iterate(step, s, n))) &&
    forall k :: 1 <= k < n ==> more(Iterate(step, s, k))
  }

  /** A pass after which `more` holds adds one to where the loop stops. */
  lemma SettlesStep(step: string -> string, more: string -> bool, s: string, n: nat, bound: nat)
    requires more(step(s)) && Settles(step, more, step(s), n, bound)
    ensures Settles(step, more, s, n + 1, bound + 1)
    ensures Iterate(step, s, n + 1) == Iterate(step, step(s), n)
  {
    forall k | 1 <= k < n + 1 ensures more(Iterate(step, s, k)) {
      assert Iterate(step, s, k) == Iterate(step, step(s), k - 1);
    }
  }

  /** The loop runs at least one and at most `10 - loop` passes, goes on while
      `more` holds, and stops early only once it fails. */
  lemma {:induction false} LoopBound(step: string -> string, more: string -> bool, s: string, loop: nat)
    requires loop < 10
    ensures Settles(step, more, s, Rounds(step, more, s, loop), 10 - loop)
    ensures Loop(step, more, s, loop) == Iterate(step, s, Rounds(step, more, s, loop))
    decreases 10 - loop
  {
    var c := step(s);
    if loop + 1 < 10 && more(c) {
      LoopBound(step, more, c, loop + 1);
      var n := Rounds(step, more, c, loop + 1);
      assert Rounds(step, more, s, loop) == n + 1;
      assert Loop(step, more, s, loop) == Loop(step, more, c, loop + 1);
      SettlesStep(step, more, s, n, 10 - (loop + 1));
    } else {
      assert Iterate(step, s, 1) == c;
    }
  }

  /** One expansion pass of `do_shortcode`, as a function value. */
  function ExpandPass(tags: seq<string>, handlers: map<string, Handler>): string -> string
    requires Handles(DoTags(handlers), Alts(tags))
  {
    t => Pass(tags, DoTags(handlers), t)
  }

  /** The test of the loop: some shortcode is left. */
  function Remains(tags: seq<string>): string -> bool {
    t => Has(tags, t, None)
  }

  /** The result of `do_shortcode` from pass number `loop` on. */
  function Expansion(tags: seq<string>, handlers: map<string, Handler>, s: string, loop: nat): (r: string)
    requires loop < 10 && Handles(DoTags(handlers), Alts(tags))
    ensures var n := Rounds(ExpandPass(tags, handlers), Remains(tags), s, loop);
      1 <= n <= 10 - loop && r == Iterate(ExpandPass(tags, handlers), s, n) &&
      (n < 10 - loop ==> !Has(tags, r, None))
  {
    LoopBound(ExpandPass(tags, handlers), Remains(tags), s, loop);
    Loop(ExpandPass(tags, handlers), Remains(tags), s, loop)
  }

  /** All elements distinct. */
  predicate Distinct(s: seq<string>) {
    forall i, j :: 0 <= i < j < |s| ==> s[i] != s[j]
  }

  /** `tags` without `tag`, order kept (`unset` on a PHP array). */
  function Without(tags: seq<string>, tag: string): (r: seq<string>)
    ensures forall t :: t in r <==> t in tags && t != tag
    ensures Distinct(tags) ==> Distinct(r)
    ensures tag !in tags ==> r == tags
  {
    if tags == [] then []
    else
      var rest := Without(tags[1..], tag);
      assert Distinct(tags) ==> tags[0] !in tags[1..];
      (if tags[0] == tag then [] else [tags[0]]) + rest
  }

  /** With distinct keys, `unset` takes out the one entry and keeps the
      others in their order. */
  lemma {:induction false} WithoutKeepsOrder(tags: seq<string>, tag: string, i: nat)
    requires Distinct(tags) && i < |tags| && tags[i] == tag
    ensures Without(tags, tag) == tags[..i] + tags[i + 1..]
  {
    assert Distinct(tags[1..]);
    if i == 0 {
      assert tag !in tags[1..];
    } else {
      WithoutKeepsOrder(tags[1..], tag, i - 1);
      assert tags[1..][..i - 1] == tags[1..i];
      assert tags[..i] == [tags[0]] + tags[1..i];
    }
  }

  class Shortcodes {
    /** The optional hook dispatcher (`$hooks`). */
    var hooks: Option<AttsFilter>
    /** The keys of `$shortcode_tags`, in PHP array order (insertion order). */
    var tags: seq<string>
    /** The values of `$shortcode_tags`. */
    var handlers: map<string, Handler>

    ghost predicate Valid()
      reads this
    {
      Distinct(tags) && forall t :: t in handlers <==> t in tags
    }

    constructor (hooks: Option<AttsFilter>)
      ensures Valid() && this.hooks == hooks && tags == [] && handlers == map[]
    {
      this.hooks := hooks;
      tags := [];
      handlers := map[];
    }

    /** `add_shortcode`: last write wins; a new tag goes to the end of the
        order, an overwritten one keeps its place; a value that is not
        callable is ignored. */
    method AddShortcode(tag: string, func: HandlerValue)
      requires Valid()
      modifies this
      ensures Valid() && hooks == old(hooks)
      ensures func.Callable? ==> handlers == old(handlers)[tag := func.run]
      ensures func.Callable? ==> tags == if tag in old(tags) then old(tags) else old(tags) + [tag]
      ensures func.NotCallable? ==> handlers == old(handlers) && tags == old(tags)
    {
      if func.Callable? {
        if tag !in handlers {
          tags := tags + [tag];
        }
        handlers := handlers[tag := func.run];
      }
    }

    /** `remove_shortcode`: only the named binding goes. */
    method RemoveShortcode(tag: string)
      requires Valid()
      modifies this
      ensures Valid() && hooks == old(hooks)
      ensures handlers == old(handlers) - {tag} && tags == Without(old(tags), tag)
      ensures forall t :: t != tag && t in old(handlers) ==> t in handlers && handlers[t] == old(handlers)[t]
    {
      tags := Without(tags, tag);
      handlers := handlers - {tag};
    }

    /** `remove_all_shortcodes`. */
    method RemoveAllShortcodes()
      requires Valid()
      modifies this
      ensures Valid() && hooks == old(hooks) && tags == [] && handlers == map[]
    {
      tags := [];
      handlers := map[];
    }

    /** `shortcode_exists`: key membership, which is membership in the order too. */
    function ShortcodeExists(tag: string): (r: bool)
      reads this
      requires Valid()
      ensures r <==> tag in tags
    {
      tag in handlers
    }

    /** `has_shortcode`. */
    method HasShortcode(content: string, tag: Option<string>) returns (r: bool)
      requires Valid()
      ensures r == Has(tags, content, tag)
      decreases |content|
    {
      if '[' !in content {
        return false;
      }
      if tag.Some? && !ShortcodeExists(tag.value) {
        return false;
      }
      var matches := Scan(Alts(tags), content, 0);
      if |matches| == 0 {
        return false;
      }
      if tag.None? {
        return true;
      }
      ScanTiled(Alts(tags), content, 0);
      TiledAll(Alts(tags), content, 0, matches);
      var i := 0;
      while i < |matches|
        invariant 0 <= i <= |matches|
        invariant forall k :: 0 <= k < i ==>
          !(matches[k].name == tag.value || (!PhpEmpty(matches[k].body) && Has(tags, matches[k].body, tag)))
      {
        if tag.value == matches[i].name {
          return true;
        } else if !PhpEmpty(matches[i].body) {
          var inner := HasShortcode(matches[i].body, tag);
          if inner {
            return true;
          }
        }
        i := i + 1;
      }
      return false;
    }

    /** `do_shortcode`: with no tags registered the content is returned as it
        is; otherwise passes run until no shortcode is left or ten have run. */
    method DoShortcode(content: string) returns (r: string)
      requires Valid()
      ensures tags == [] ==> r == content
      ensures tags != [] ==> Handles(DoTags(handlers), Alts(tags)) && r == Expansion(tags, handlers, content, 0)
      ensures tags != [] ==> exists n ::
        Settles(ExpandPass(tags, handlers), Remains(tags), content, n, 10) && r == Iterate(ExpandPass(tags, handlers), content, n)
    {
      if |tags| == 0 {
        return content;
      }
      var rw := DoTags(handlers);
      r := Pass(tags, rw, content);
      var loop := 1;
      var more := HasShortcode(r, None);
      while loop < 10 && more
        invariant 1 <= loop <= 10
        invariant more == Has(tags, r, None)
        invariant Expansion(tags, handlers, content, 0) ==
          if loop < 10 && more then Expansion(tags, handlers, r, loop) else r
        decreases 10 - loop
      {
        r := Pass(tags, rw, r);
        loop := loop + 1;
        more := HasShortcode(r, None);
      }
      LoopBound(ExpandPass(tags, handlers), Remains(tags), content, 0);
    }

    /** `strip_shortcodes`: one pass that leaves only the escape brackets of
        each match; with no tags registered the content is returned as it is. */
    function StripShortcodes(content: string): (r: string)
      reads this
      requires Valid()
      ensures tags == [] ==> r == content
      ensures tags != [] ==> r == Pass(tags, StripTags, content)
      ensures |r| <= |content|
      ensures Scan(Alts(tags), content, 0) != [] && tags != [] ==> |r| < |content|
    {
      if tags == [] then content
      else
        ScanTiled(Alts(tags), content, 0);
        StripShrinks(Alts(tags), content, 0, Scan(Alts(tags), content, 0));
        Pass(tags, StripTags, content)
    }

    /** `shortcode_atts`: one output entry per schema entry, in schema order;
        then, when a tag name is given and a hook dispatcher is attached, the
        filter `shortcode_atts_<tag>` gets the last word. */
    method ShortcodeAtts(pairs: seq<(string, Entry)>, atts: map<string, string>, shortcode: Option<string>, matches: Matcher)
      returns (out: seq<(string, Value)>)
      ensures !(shortcode.Some? && shortcode.value != "" && hooks.Some?) ==> out == ResolveAll(pairs, atts, matches)
      ensures shortcode.Some? && shortcode.value != "" && hooks.Some? ==>
        out == hooks.value("shortcode_atts_" + shortcode.value, ResolveAll(pairs, atts, matches), pairs, atts)
    {
      var acc: seq<(string, Value)> := [];
      for j := 0 to |pairs|
        invariant |acc| == j
        invariant forall q :: 0 <= q < j ==> acc[q] == (pairs[q].0, Resolve(pairs[q].0, pairs[q].1, atts, matches))
      {
        var name := pairs[j].0;
        var v: Value;
        match pairs[j].1 {
          case Validated(rule, fallback) =>
            if name in atts && RuleAccepts(rule, atts[name], matches) {
              v := if rule == BooleanRule then Bool(FilterBoolean(atts[name])) else Str(atts[name]);
            } else {
              v := fallback;
            }
          case Plain(default) =>
            v := if name in atts then Str(atts[name]) else default;
        }
        acc := acc + [(name, v)];
      }
      assert acc == ResolveAll(pairs, atts, matches);
      if shortcode.Some? && shortcode.value != "" && hooks.Some? {
        out := hooks.value("shortcode_atts_" + shortcode.value, acc, pairs, atts);
      } else {
        out := acc;
      }
    }
  }
}
