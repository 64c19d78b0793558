/** Worked examples of the engine on concrete content. Each `...Scan`
    lemma pins down what the pattern finds in one piece of text; the others
    state what the passes, the loop and detection make of it. */
module Scenarios {
  import opened Php
  import opened Scanner
  import opened Attributes
  import opened Schema
  import opened Engine

  /** A handler that ignores its arguments. */
  function Const(out: string): Handler {
    (a: ParsedAtts, c: string, t: string) => out
  }

  /** `t` does not occur at `p`: the texts differ at offset `j`. */
  lemma NotAt(s: string, p: nat, t: string, j: nat)
    requires p + |t| <= |s| && j < |t| && s[p + j] != t[j]
    ensures !PrefixAt(s, p, t)
  {
    assert s[p..p + |t|][j] == s[p + j];
  }

  /** With one registered name, the alternation is that name alone. */
  lemma TryOne(name: string, s: string, i: nat, esc: bool)
    requires i < |s| && s[i] == '[' && (esc ==> i + 1 < |s| && s[i + 1] == '[')
    ensures TryName([name], s, i, esc) == Finish(s, i, esc, name)
  {
  }

  /** At `[[`, a name that fits after both brackets is taken with group 1
      set. */
  lemma TryEscaped(alts: seq<string>, s: string, m: Match)
    requires 1 < |s| && s[0] == '[' && s[1] == '['
    requires TryName(alts, s, 0, true) == Some(m)
    ensures TryAt(alts, s, 0) == Some(m)
  {
  }

  /** After a single `[`, group 1 stays unset. */
  lemma TryPlain(alts: seq<string>, s: string)
    requires 1 < |s| && s[0] == '[' && s[1] != '['
    ensures TryAt(alts, s, 0) == TryName(alts, s, 0, false)
  {
  }

  /** A text that is exactly one match scans to that match. */
  lemma SingleMatchScan(alts: seq<string>, s: string, m: Match)
    requires TryAt(alts, s, 0) == Some(m) && m.End() == |s|
    ensures Scan(alts, s, 0) == [m]
  {
    TryAtBounds(alts, s, 0);
    assert Scan(alts, s, |s|) == [];
  }

  /** ... and one pass over it yields the image of that match. */
  lemma SingleMatchPass(tags: seq<string>, rw: Rewrite, s: string, m: Match)
    requires Handles(rw, Alts(tags))
    requires TryAt(Alts(tags), s, 0) == Some(m) && m.End() == |s|
    ensures m.text == Render(m) && m.name in Alts(tags) && Pass(tags, rw, s) == Image(rw, m)
  {
    TryAtBounds(Alts(tags), s, 0);
    SingleMatchScan(Alts(tags), s, m);
    ScanTiled(Alts(tags), s, 0);
    SpliceSingle(Alts(tags), rw, s, m);
  }

  /** Splicing the one match that covers the whole text leaves only its image. */
  lemma SpliceSingle(alts: seq<string>, rw: Rewrite, s: string, m: Match)
    requires Handles(rw, alts) && Tiled(alts, s, 0, [m])
    requires m.text == Render(m) && m.name in alts && m.start == 0 && m.End() == |s|
    ensures Splice(alts, s, 0, [m], rw) == Image(rw, m)
  {
    SpliceOne(alts, rw, s, 0, m);
    assert s[0..0] == [] && s[|s|..] == [];
  }

  lemma SelfClosingFinish()
    ensures Finish("[b/]", 0, false, "b") == Some(Match(0, "[b/]", false, "b", "", true, "", false, false))
  {
    var s := "[b/]";
    assert NameFits(s, 1, "b");
    assert FindChar(s, 2, ']') == Some(3);
    assert Build(s, 0, false, "b", 3) == Match(0, s, false, "b", "", true, "", false, false);
  }

  lemma SelfClosingScan()
    ensures TryAt(["b"], "[b/]", 0) == Some(Match(0, "[b/]", false, "b", "", true, "", false, false))
      && Scan(["b"], "[b/]", 0) == [Match(0, "[b/]", false, "b", "", true, "", false, false)]
  {
    var m := Match(0, "[b/]", false, "b", "", true, "", false, false);
    SelfClosingFinish();
    assert TryAt(["b"], "[b/]", 0) == Some(m);
    SingleMatchScan(["b"], "[b/]", m);
  }

  lemma SelfClosingPass()
    ensures Pass(["b"], DoTags(map["b" := Const("X")]), "[b/]") == "X"
  {
    var tags, rw := ["b"], DoTags(map["b" := Const("X")]);
    var m := Match(0, "[b/]", false, "b", "", true, "", false, false);
    assert Alts(tags) == ["b"];
    assert Handles(rw, Alts(tags));
    SelfClosingScan();
    SingleMatchPass(tags, rw, "[b/]", m);
    SelfClosingImage(rw, m);
  }

  lemma SelfClosingImage(rw: Rewrite, m: Match)
    requires rw == DoTags(map["b" := Const("X")])
    requires m == Match(0, "[b/]", false, "b", "", true, "", false, false)
    ensures m.text == Render(m) && Image(rw, m) == "X"
  {
    assert Render(m) == "[" + ("b" + "" + "/]") + "";
    assert !m.Escaped();
    assert DoShortcodeTag(rw.handlers, m) == [] + "X" + [];
  }

  /** `[b/]` is replaced by its handler's output, and the loop stops after
      one pass. */
  lemma SelfClosingTag()
    ensures Expansion(["b"], map["b" := Const("X")], "[b/]", 0) == "X"
  {
    SelfClosingPass();
  }

  lemma EscapedEnclosingBody()
    ensures FindText("[[t]x[/t]]", 4, "[/t]") == Some(5)
  {
    var s := "[[t]x[/t]]";
    NotAt(s, 4, "[/t]", 0);
    assert PrefixAt(s, 5, "[/t]");
  }

  lemma EscapedEnclosingFinish()
    ensures Finish("[[t]x[/t]]", 0, true, "t") == Some(Match(0, "[[t]x[/t]]", true, "t", "", false, "x", true, true))
  {
    var s := "[[t]x[/t]]";
    assert NameFits(s, 2, "t");
    assert FindChar(s, 3, ']') == Some(3);
    EscapedEnclosingBuild();
  }

  lemma EscapedEnclosingBuild()
    requires BuildArgs("[[t]x[/t]]", 0, true, "t", 3)
    ensures Build("[[t]x[/t]]", 0, true, "t", 3) == Match(0, "[[t]x[/t]]", true, "t", "", false, "x", true, true)
  {
    var s := "[[t]x[/t]]";
    EscapedEnclosingBody();
    assert !SelfClosingAt(s, 3, 3) && CloserAt(s, "t", 3, false) == Some(5);
    assert BuildAfter(s, 0, true, "t", 3) == 9;
    assert s[4..5] == "x";
    assert s[3..3] == "";
    assert s[0..10] == s;
  }

  lemma EscapedEnclosingScan()
    ensures TryAt(["t"], "[[t]x[/t]]", 0) == Some(Match(0, "[[t]x[/t]]", true, "t", "", false, "x", true, true))
      && Scan(["t"], "[[t]x[/t]]", 0) == [Match(0, "[[t]x[/t]]", true, "t", "", false, "x", true, true)]
  {
    var m := Match(0, "[[t]x[/t]]", true, "t", "", false, "x", true, true);
    EscapedEnclosingFinish();
    TryOne("t", "[[t]x[/t]]", 0, true);
    TryEscaped(["t"], "[[t]x[/t]]", m);
    SingleMatchScan(["t"], "[[t]x[/t]]", m);
  }

  /** The first pass over `[[t]x[/t]]` only unescapes it: no handler runs. */
  lemma EscapedEnclosingPass(h: map<string, Handler>)
    requires "t" in h
    ensures Pass(["t"], DoTags(h), "[[t]x[/t]]") == "[t]x[/t]"
  {
    EscapedEnclosingScan();
    var m := Match(0, "[[t]x[/t]]", true, "t", "", false, "x", true, true);
    SingleMatchPass(["t"], DoTags(h), "[[t]x[/t]]", m);
    EscapedEnclosingImage(h);
  }

  lemma EscapedEnclosingImage(h: map<string, Handler>)
    requires "t" in h
    ensures Image(DoTags(h), Match(0, "[[t]x[/t]]", true, "t", "", false, "x", true, true)) == "[t]x[/t]"
  {
    var m := Match(0, "[[t]x[/t]]", true, "t", "", false, "x", true, true);
    assert m.text == Render(m);
    assert m.text[1..|m.text| - 1] == "[t]x[/t]";
  }

  lemma EnclosingBody()
    ensures FindText("[t]x[/t]", 3, "[/t]") == Some(4)
  {
    var c := "[t]x[/t]";
    NotAt(c, 3, "[/t]", 0);
    assert PrefixAt(c, 4, "[/t]");
  }

  lemma EnclosingFinish()
    ensures Finish("[t]x[/t]", 0, false, "t") == Some(Match(0, "[t]x[/t]", false, "t", "", false, "x", true, false))
  {
    var c := "[t]x[/t]";
    assert NameFits(c, 1, "t");
    assert FindChar(c, 2, ']') == Some(2);
    EnclosingBuild();
  }

  lemma EnclosingBuild()
    requires BuildArgs("[t]x[/t]", 0, false, "t", 2)
    ensures Build("[t]x[/t]", 0, false, "t", 2) == Match(0, "[t]x[/t]", false, "t", "", false, "x", true, false)
  {
    var c := "[t]x[/t]";
    EnclosingBody();
    assert !SelfClosingAt(c, 2, 2) && CloserAt(c, "t", 2, false) == Some(4);
    assert BuildAfter(c, 0, false, "t", 2) == 8;
    assert c[3..4] == "x";
    assert c[2..2] == "";
    assert c[0..8] == c;
  }

  lemma EnclosingScan()
    ensures TryAt(["t"], "[t]x[/t]", 0) == Some(Match(0, "[t]x[/t]", false, "t", "", false, "x", true, false))
      && Scan(["t"], "[t]x[/t]", 0) == [Match(0, "[t]x[/t]", false, "t", "", false, "x", true, false)]
  {
    var m := Match(0, "[t]x[/t]", false, "t", "", false, "x", true, false);
    EnclosingFinish();
    assert TryAt(["t"], "[t]x[/t]", 0) == Some(m);
    SingleMatchScan(["t"], "[t]x[/t]", m);
  }

  /** An empty attribute text parses to the empty scalar. */
  lemma EmptyAtts()
    ensures ParseAttsOf("") == Scalar("")
  {
    assert Normalize("") == "";
    assert Tokens("", 0) == [];
  }

  /** A pass over `[t]x[/t]` hands the body `x` and the name to the handler. */
  lemma EnclosingPass(h: map<string, Handler>)
    requires "t" in h
    ensures Pass(["t"], DoTags(h), "[t]x[/t]") == h["t"](Scalar(""), "x", "t")
  {
    EnclosingScan();
    SingleMatchPass(["t"], DoTags(h), "[t]x[/t]", Match(0, "[t]x[/t]", false, "t", "", false, "x", true, false));
    EmptyAtts();
  }

  lemma EnclosingDetected()
    ensures Has(["t"], "[t]x[/t]", None)
  {
    EnclosingScan();
    HasAnyIffMatch(["t"], "[t]x[/t]");
  }

  /** An escaped enclosing tag `[[t]x[/t]]` is unescaped by the first pass
      to `[t]x[/t]`, which the loop then sees as a shortcode and expands in a
      second pass, calling the handler after all. */
  lemma EscapedTagExpandsOnSecondPass()
    ensures Expansion(["t"], map["t" := Const("Y")], "[[t]x[/t]]", 0) == "Y"
  {
    var h := map["t" := Const("Y")];
    EscapedEnclosingPass(h);
    EnclosingPass(h);
    EnclosingDetected();
    assert !Has(["t"], "Y", None);
    assert Expansion(["t"], h, "[t]x[/t]", 1) == "Y";
  }

  lemma LeftEscapedFinish()
    ensures Finish("[[b/]", 0, true, "b") == Some(Match(0, "[[b/]", true, "b", "", true, "", false, false))
  {
    var s := "[[b/]";
    assert NameFits(s, 2, "b");
    assert FindChar(s, 3, ']') == Some(4);
    assert Build(s, 0, true, "b", 4) == Match(0, s, true, "b", "", true, "", false, false);
  }

  lemma LeftEscapedScan()
    ensures TryAt(["b"], "[[b/]", 0) == Some(Match(0, "[[b/]", true, "b", "", true, "", false, false))
      && Scan(["b"], "[[b/]", 0) == [Match(0, "[[b/]", true, "b", "", true, "", false, false)]
  {
    var m := Match(0, "[[b/]", true, "b", "", true, "", false, false);
    LeftEscapedFinish();
    assert TryAt(["b"], "[[b/]", 0) == Some(m);
    SingleMatchScan(["b"], "[[b/]", m);
  }

  lemma LeftEscapedImage()
    ensures Image(DoTags(map["b" := Const("X")]), Match(0, "[[b/]", true, "b", "", true, "", false, false)) == "[X"
  {
    var m := Match(0, "[[b/]", true, "b", "", true, "", false, false);
    assert m.text == Render(m);
    assert Bracket(true, '[') == "[" && Bracket(false, ']') == "";
  }

  lemma LeftEscapedPass()
    ensures Pass(["b"], DoTags(map["b" := Const("X")]), "[[b/]") == "[X"
  {
    LeftEscapedScan();
    SingleMatchPass(["b"], DoTags(map["b" := Const("X")]), "[[b/]", Match(0, "[[b/]", true, "b", "", true, "", false, false));
    LeftEscapedImage();
  }

  lemma StrayBracketScan()
    ensures Scan(["b"], "[X", 0) == []
  {
    var c := "[X";
    NotAt(c, 1, "b", 0);
    assert TryAt(["b"], c, 0) == None;
    assert TryAt(["b"], c, 1) == None;
    ScanEmpty(["b"], c, 0);
  }

  /** A tag escaped only on the left keeps its stray `[` in front of the
      handler's output: `[[b/]` becomes `[X`, and the loop stops there. */
  lemma StrayEscapeBracketKept()
    ensures Expansion(["b"], map["b" := Const("X")], "[[b/]", 0) == "[X"
  {
    LeftEscapedPass();
    StrayBracketScan();
    HasAnyIffMatch(["b"], "[X");
  }

  lemma EscapedOpenFinish()
    ensures Finish("[[foo]]", 0, true, "foo") == Some(Match(0, "[[foo]]", true, "foo", "", false, "", false, true))
  {
    var s := "[[foo]]";
    assert NameFits(s, 2, "foo");
    assert FindChar(s, 5, ']') == Some(5);
    assert FindText(s, 6, "[/foo]") == None;
    assert Build(s, 0, true, "foo", 5) == Match(0, s, true, "foo", "", false, "", false, true);
  }

  lemma EscapedOpenTry()
    ensures TryAt(["foo"], "[[foo]]", 0) == Some(Match(0, "[[foo]]", true, "foo", "", false, "", false, true))
  {
    EscapedOpenFinish();
    TryOne("foo", "[[foo]]", 0, true);
    TryEscaped(["foo"], "[[foo]]", Match(0, "[[foo]]", true, "foo", "", false, "", false, true));
  }

  lemma EscapedOpenScan()
    ensures TryAt(["foo"], "[[foo]]", 0) == Some(Match(0, "[[foo]]", true, "foo", "", false, "", false, true))
      && Scan(["foo"], "[[foo]]", 0) == [Match(0, "[[foo]]", true, "foo", "", false, "", false, true)]
  {
    EscapedOpenTry();
    SingleMatchScan(["foo"], "[[foo]]", Match(0, "[[foo]]", true, "foo", "", false, "", false, true));
  }

  lemma OpenFinish()
    ensures Finish("[foo]", 0, false, "foo") == Some(Match(0, "[foo]", false, "foo", "", false, "", false, false))
  {
    var c := "[foo]";
    assert NameFits(c, 1, "foo");
    assert FindChar(c, 4, ']') == Some(4);
    assert FindText(c, 5, "[/foo]") == None;
    assert Build(c, 0, false, "foo", 4) == Match(0, c, false, "foo", "", false, "", false, false);
  }

  lemma OpenScan()
    ensures TryAt(["foo"], "[foo]", 0) == Some(Match(0, "[foo]", false, "foo", "", false, "", false, false))
      && Scan(["foo"], "[foo]", 0) == [Match(0, "[foo]", false, "foo", "", false, "", false, false)]
  {
    var m := Match(0, "[foo]", false, "foo", "", false, "", false, false);
    OpenFinish();
    assert TryAt(["foo"], "[foo]", 0) == Some(m);
    SingleMatchScan(["foo"], "[foo]", m);
  }

  /** Stripping `[[foo]]` leaves the literal tag `[foo]`. */
  lemma StripUnescapes()
    ensures Pass(["foo"], StripTags, "[[foo]]") == "[foo]"
  {
    EscapedOpenScan();
    SingleMatchPass(["foo"], StripTags, "[[foo]]", Match(0, "[[foo]]", true, "foo", "", false, "", false, true));
  }

  /** Stripping `[foo]` removes it. */
  lemma StripRemoves()
    ensures Pass(["foo"], StripTags, "[foo]") == ""
  {
    OpenScan();
    SingleMatchPass(["foo"], StripTags, "[foo]", Match(0, "[foo]", false, "foo", "", false, "", false, false));
  }

  /** Stripping is not idempotent: a second strip of `[[foo]]` removes what
      the first one kept. */
  lemma StripNotIdempotent()
    ensures Pass(["foo"], StripTags, "[[foo]]") != Pass(["foo"], StripTags, Pass(["foo"], StripTags, "[[foo]]"))
  {
    StripUnescapes();
    StripRemoves();
  }

  lemma OuterBody()
    ensures FindText("[a][b/][/a]", 3, "[/a]") == Some(7)
  {
    var s := "[a][b/][/a]";
    NotAt(s, 3, "[/a]", 1);
    NotAt(s, 4, "[/a]", 0);
    NotAt(s, 5, "[/a]", 0);
    NotAt(s, 6, "[/a]", 0);
    assert PrefixAt(s, 7, "[/a]");
  }

  lemma OuterFinish()
    ensures Finish("[a][b/][/a]", 0, false, "a") == Some(Match(0, "[a][b/][/a]", false, "a", "", false, "[b/]", true, false))
  {
    var s := "[a][b/][/a]";
    assert NameFits(s, 1, "a");
    assert FindChar(s, 2, ']') == Some(2);
    OuterBuild();
  }

  lemma OuterBuild()
    requires BuildArgs("[a][b/][/a]", 0, false, "a", 2)
    ensures Build("[a][b/][/a]", 0, false, "a", 2) == Match(0, "[a][b/][/a]", false, "a", "", false, "[b/]", true, false)
  {
    var s := "[a][b/][/a]";
    OuterBody();
    assert !SelfClosingAt(s, 2, 2) && CloserAt(s, "a", 2, false) == Some(7);
    assert BuildAfter(s, 0, false, "a", 2) == 11;
    OuterSlices();
  }

  lemma OuterSlices()
    ensures "[a][b/][/a]"[3..7] == "[b/]" && "[a][b/][/a]"[2..2] == "" && "[a][b/][/a]"[0..11] == "[a][b/][/a]"
  {
    var s := "[a][b/][/a]";
    assert s[3..7] == [s[3], s[4], s[5], s[6]];
  }

  lemma OuterTry()
    ensures TryAt(["a", "b"], "[a][b/][/a]", 0) == Some(Match(0, "[a][b/][/a]", false, "a", "", false, "[b/]", true, false))
  {
    var m := Match(0, "[a][b/][/a]", false, "a", "", false, "[b/]", true, false);
    OuterFinish();
    assert TryName(["a", "b"], "[a][b/][/a]", 0, false) == Some(m);
    TryPlain(["a", "b"], "[a][b/][/a]");
  }

  lemma OuterScan()
    ensures TryAt(["a", "b"], "[a][b/][/a]", 0) == Some(Match(0, "[a][b/][/a]", false, "a", "", false, "[b/]", true, false))
      && Scan(["a", "b"], "[a][b/][/a]", 0) == [Match(0, "[a][b/][/a]", false, "a", "", false, "[b/]", true, false)]
  {
    OuterTry();
    SingleMatchScan(["a", "b"], "[a][b/][/a]", Match(0, "[a][b/][/a]", false, "a", "", false, "[b/]", true, false));
  }

  lemma InnerScan()
    ensures TryAt(["a", "b"], "[b/]", 0) == Some(Match(0, "[b/]", false, "b", "", true, "", false, false))
      && Scan(["a", "b"], "[b/]", 0) == [Match(0, "[b/]", false, "b", "", true, "", false, false)]
  {
    var tags := ["a", "b"];
    var b := "[b/]";
    var m := Match(0, b, false, "b", "", true, "", false, false);
    NotAt(b, 1, "a", 0);
    SelfClosingFinish();
    assert TryName(tags[1..], b, 0, false) == Some(m);
    assert TryName(tags, b, 0, false) == Some(m);
    assert TryAt(tags, b, 0) == Some(m);
    SingleMatchScan(tags, b, m);
  }

  /** `has_shortcode` finds `b` inside the body of `a` in `[a][b/][/a]`,
      although the only top-level match is `a`. */
  lemma NestedTagDetected()
    ensures Has(["a", "b"], "[a][b/][/a]", Some("b"))
  {
    OuterScan();
    InnerScan();
    HasNested(["a", "b"], "[a][b/][/a]", "b", 0, 0);
  }

  /** A registered `foo` does not match in `[foobar]`. */
  lemma LongerNameNotMatched()
    ensures Scan(["foo"], "[foobar]", 0) == []
  {
    var s := "[foobar]";
    assert !NameFits(s, 1, "foo");
    forall p | 0 <= p < |s| ensures TryAt(["foo"], s, p) == None {
      assert p > 0 ==> s[p] != '[';
    }
    ScanEmpty(["foo"], s, 0);
  }

  /** The attribute text of the parse example. */
  const Example: string := "type=\"info\" bold"

  lemma ExampleAssignment()
    ensures Assignment(Example, 0) == Some(("type", 5))
  {
    assert RunEnd(Example, 0, IsWord) == 4;
    assert RunEnd(Example, 4, IsSpace) == 4;
    assert RunEnd(Example, 5, IsSpace) == 5;
    assert Example[0..4] == "type";
  }

  lemma ExampleQuoted()
    ensures QuotedAt(Example, 5, '"') == Some(("info", 12))
  {
    assert FindChar(Example, 6, '"') == Some(10);
    assert Boundary(Example, 11) == Some(12);
    assert Example[6..10] == "info";
  }

  /** The first alternative recognises `type="info"` and its trailing space. */
  lemma FirstToken()
    ensures TokenAt(Example, 0) == Some((Named(DoubleQuoted, "type", "info"), 12))
  {
    ExampleAssignment();
    ExampleQuoted();
  }

  /** `bold` is no assignment and no quoted string, so the last alternative
      takes it. */
  lemma SecondToken()
    ensures TokenAt(Example, 12) == Some((Bare("bold"), 16))
  {
    assert RunEnd(Example, 12, IsWord) == 16;
    assert Assignment(Example, 12) == None;
    assert QuotedAt(Example, 12, '"') == None;
    assert RunEnd(Example, 12, NotSpace) == 16;
    assert Example[12..16] == "bold";
  }

  lemma ExampleTokens()
    ensures Tokens(Example, 0) == [Named(DoubleQuoted, "type", "info"), Bare("bold")]
  {
    FirstToken();
    SecondToken();
    assert Tokens(Example, 16) == [];
    assert Tokens(Example, 12) == [Bare("bold")];
  }

  /** The `foreach` over two matches. */
  lemma CollectTwo(a: Token, b: Token)
    ensures Collect([a, b]) == Add(Add(Attrs(map[], []), a), b)
  {
    assert [a, b][..1] == [a];
    assert [a][..0] == [];
    assert Collect([a]) == Add(Attrs(map[], []), a);
  }

  /** A named value with a lower-case key and no backslash is stored as it is. */
  lemma AddVerbatimNamed(acc: ParsedAtts, form: Form, k: string, v: string)
    requires acc.Attrs? && !PhpEmpty(k) && Lower(k) == k && '\\' !in v
    ensures Add(acc, Named(form, k, v)) == acc.(named := acc.named[k := v])
  {
    UnescapeWithoutBackslash(v);
  }

  /** A bare value with no backslash is appended as it is. */
  lemma AddVerbatimBare(acc: ParsedAtts, v: string)
    requires acc.Attrs? && '\\' !in v
    ensures Add(acc, Bare(v)) == acc.(positional := acc.positional + [v])
  {
    UnescapeWithoutBackslash(v);
  }

  lemma TypeIsLowerCase()
    ensures !PhpEmpty("type") && Lower("type") == "type"
  {
  }

  lemma ExampleCollect()
    ensures Collect([Named(DoubleQuoted, "type", "info"), Bare("bold")]) == Attrs(map["type" := "info"], ["bold"])
  {
    CollectTwo(Named(DoubleQuoted, "type", "info"), Bare("bold"));
    TypeIsLowerCase();
    AddVerbatimNamed(Attrs(map[], []), DoubleQuoted, "type", "info");
    AddVerbatimBare(Attrs(map["type" := "info"], []), "bold");
  }

  lemma ExampleNormalized()
    ensures Normalize(Example) == Example
  {
    NormalizeKeepsVisible(Example);
  }

  /** `type="info" bold` parses to the named value `type` and one positional
      value `bold`. */
  lemma ParseExample()
    ensures ParseAttsOf(Example) == Attrs(map["type" := "info"], ["bold"])
  {
    ExampleNormalized();
    ExampleTokens();
    ExampleCollect();
  }

  /** Text with no blank at either end is left alone by the trimming. */
  lemma Untrimmed(s: string)
    requires s != [] && !IsFilterTrimmed(s[0]) && !IsFilterTrimmed(s[|s| - 1])
    ensures TrimStart(TrimEnd(s)) == s
  {
  }

  lemma TrimYes()
    ensures TrimStart(TrimEnd("yes")) == "yes"
  {
    Untrimmed("yes");
  }

  lemma LowerYes()
    ensures Lower("yes") == "yes"
  {
  }

  /** `filter_var("yes", FILTER_VALIDATE_BOOLEAN)` is true. */
  lemma YesIsTrue()
    ensures FilterBoolean("yes")
  {
    TrimYes();
    LowerYes();
  }

  lemma YesMatches()
    ensures MatchesBooleanPattern("yes")
  {
    assert PrefixAt("yes", 0, "yes");
    assert FindText("yes", 0, "yes") == Some(0);
  }

  /** The user attributes of the schema example. */
  const UserAtts: map<string, string> := map["color" := "purple", "flag" := "yes", "extra" := "1"]

  lemma FlagResolves(matches: Matcher)
    ensures Resolve("flag", Validated(BooleanRule, Bool(false)), UserAtts, matches) == Bool(true)
  {
    FlagIsYes();
    YesIsTrue();
    YesMatches();
    ResolveBoolean("flag", Bool(false), UserAtts, matches);
  }

  lemma FlagIsYes()
    ensures "flag" in UserAtts && UserAtts["flag"] == "yes"
  {
  }

  /** A value the boolean rule accepts is coerced by `filter_var`. */
  lemma ResolveBoolean(name: string, fallback: Value, atts: map<string, string>, matches: Matcher)
    requires name in atts && MatchesBooleanPattern(atts[name])
    ensures Resolve(name, Validated(BooleanRule, fallback), atts, matches) == Bool(FilterBoolean(atts[name]))
  {
    assert RuleAccepts(BooleanRule, atts[name], matches);
  }

  lemma ColorFallsBack(matches: Matcher)
    requires !matches("red|green|blue", "purple")
    ensures Resolve("color", Validated("red|green|blue", Str("black")), UserAtts, matches) == Str("black")
  {
    assert UserAtts["color"] == "purple";
  }

  /** The schema of the example: a validated colour, a boolean flag and a
      plain size. */
  const Pairs: seq<(string, Entry)> :=
    [("color", Validated("red|green|blue", Str("black"))), ("flag", Validated(BooleanRule, Bool(false))), ("size", Plain(Int(10)))]

  /** The schema example: `color` fails its rule and falls back, `flag`
      passes the boolean rule and is coerced, `size` keeps its default, and
      the unknown key `extra` is dropped. */
  lemma SchemaExample(matches: Matcher)
    requires !matches("red|green|blue", "purple")
    ensures ResolveAll(Pairs, UserAtts, matches) == [("color", Str("black")), ("flag", Bool(true)), ("size", Int(10))]
  {
    ResolveThree(Pairs, UserAtts, matches);
    assert Pairs[0] == ("color", Validated("red|green|blue", Str("black")));
    assert Pairs[1] == ("flag", Validated(BooleanRule, Bool(false)));
    assert Pairs[2] == ("size", Plain(Int(10)));
    ColorFallsBack(matches);
    FlagResolves(matches);
    SizeKeepsDefault(matches);
  }

  lemma SizeKeepsDefault(matches: Matcher)
    ensures Resolve("size", Plain(Int(10)), UserAtts, matches) == Int(10)
  {
    assert "size" !in UserAtts;
  }

  lemma ResolveThree(pairs: seq<(string, Entry)>, atts: map<string, string>, matches: Matcher)
    requires |pairs| == 3
    ensures ResolveAll(pairs, atts, matches) == [
      (pairs[0].0, Resolve(pairs[0].0, pairs[0].1, atts, matches)),
      (pairs[1].0, Resolve(pairs[1].0, pairs[1].1, atts, matches)),
      (pairs[2].0, Resolve(pairs[2].0, pairs[2].1, atts, matches))]
  {
  }
}
