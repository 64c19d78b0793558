# Shortcodes engine, modelled in Dafny

This project models the `Shortcodes` class of a PHP shortcode engine (a fork of
the WordPress shortcode API). The class:

- keeps a registry of tag names and their handlers;
- finds tags such as `[b/]`, `[t a="1"]body[/t]` and the escaped `[[t]]` in
  text with one regular expression;
- expands them by calling the handlers, in a loop of at most ten passes;
- strips them in a single pass;
- detects them, also inside the body of an enclosing tag;
- parses a tag's attribute text into named and positional values;
- resolves user attributes against a caller's schema of defaults and
  validation rules.

The modules follow the pieces of the class:

- `Php`: the PHP and PCRE built-ins the class relies on:
  - the `\w` and `\s` classes;
  - `empty()` on strings;
  - `strpos`-style search;
  - `strtolower`, `ltrim`;
  - the trimming of `filter_var(..., FILTER_VALIDATE_BOOLEAN)`;
  - `stripcslashes`.
- `Scanner`: the pattern of `get_shortcode_regex`, written as a deterministic
  scanner (`TryAt` at one offset, `Scan` for `preg_match_all`).
  - Once the name is chosen, the rest of the pattern has exactly one way to
    match. So the only backtracking PCRE does is over group 1 (the escaping `[`
    first, then without it) and over the tag-name alternatives, in registry
    order.
  - `TryAtSpec`, `TryNameSpec` and `FinishSpec` prove that the scanner makes
    exactly those choices, and that the match it returns has the shape the six
    groups give it (`Shape`).
- `Attributes`: `shortcode_parse_atts`.
  - The five-alternative attribute pattern is a tokenizer (`TokenAt`, `Tokens`).
  - The `foreach` becomes the method `ParseAtts`, proved equal to the
    reference function `ParseAttsOf`.
- `Schema`: the per-entry logic of `shortcode_atts`.
  - The `'boolean'` sentinel is the unanchored, case-sensitive pattern
    `1|0|yes|no|true|false`, followed by `filter_var` coercion.
  - Any other rule is an abstract matcher.
- `Engine`: the class itself.
  - A `class Shortcodes` with the registry as fields (`tags` in insertion order,
    `handlers` as a map).
  - The methods `AddShortcode`, `RemoveShortcode`, `RemoveAllShortcodes`,
    `HasShortcode` (the loop with early return), `DoShortcode` (the do-while
    loop), `StripShortcodes` and `ShortcodeAtts` (the `foreach` that fills
    `$out`).
  - The functions they are proved against: `Pass`, `Has`, `Loop`, `Expansion`
    and `ResolveAll`.
- `Scenarios`: worked examples on concrete text.

Behaviour the model reproduces exactly, where the class's own doc comments
promise otherwise (`Shortcodes.class.php` lines 138-148 for `has_shortcode`,
198 for `do_shortcode`, 318 for `shortcode_parse_atts`, 447-453 for
`strip_shortcodes`); the model follows the code:

- Escaped enclosing tags still reach their handler. The first pass of
  `do_shortcode` only unescapes `[[t]x[/t]]` to `[t]x[/t]`. `has_shortcode` then
  finds a tag, so the loop runs a second pass and the handler is called
  (`EscapedTagExpandsOnSecondPass`).
- `strip_shortcodes` is not idempotent. `[[foo]]` strips to `[foo]`, which strips
  to the empty text (`StripNotIdempotent`).
- When no attribute token is recognised, `shortcode_parse_atts` returns the
  left-trimmed text as a scalar, not an empty container (`ParseFallback`).
- With an empty registry, `has_shortcode` uses the empty alternation. That
  matches the empty name after any `[` that is not followed by a word character
  or a hyphen and is followed later by a `]` (`Alts([]) == [""]`). `do_shortcode` and `strip_shortcodes` return
  their input unchanged in that case.
- A tag escaped on one side only keeps its stray bracket around the handler
  output: `[[b/]` becomes `[X` (`StrayEscapeBracketKept`).

## Model

| member | source | states |
|---|---|---|
| Php.FindChar | Shortcodes.class.php:256-262 | a found offset is at or after the start and holds the searched character |
| Php.FindCharFirst | Shortcodes.class.php:256-262 | the found offset is the first occurrence; when nothing is found the character occurs nowhere after the start |
| Php.FindCharIs | Shortcodes.class.php:256-262 | when `k` holds the character and nothing before it from the start does, the search finds exactly `k` |
| Php.FindText | Shortcodes.class.php:269-276 | a found offset is at or after the start and the searched text occurs there |
| Php.FindTextFirst | Shortcodes.class.php:269-276 | the found offset is the first occurrence of the text (the possessive body stops at the first closing tag); when nothing is found it occurs nowhere |
| Php.RunEnd | Shortcodes.class.php:323 | the run of a character class ends inside the text, at the end or at a character outside the class |
| Php.RunEndAll | Shortcodes.class.php:323 | every character of the run belongs to the class |
| Php.RunEndIs | Shortcodes.class.php:323 | a run of the class from `p` that stops at the end or at a character outside the class ends exactly there |
| Php.Lower | Shortcodes.class.php:332 | `strtolower` keeps the length |
| Php.LowerEach | Shortcodes.class.php:332 | `strtolower` lower-cases each character in place and touches nothing else |
| Php.LTrim | Shortcodes.class.php:354 | `ltrim` returns a suffix of its input that does not start with a trimmable character |
| Php.LTrimRemovesTrimmable | Shortcodes.class.php:354 | everything `ltrim` removes is trimmable |
| Php.TrimEnd | Shortcodes.class.php:405 | the trimming inside `filter_var` keeps a prefix that does not end in a blank |
| Php.TrimStart | Shortcodes.class.php:405 | the trimming inside `filter_var` keeps a suffix that does not start with a blank |
| Php.FilterBoolean | Shortcodes.class.php:405 | `filter_var(..., FILTER_VALIDATE_BOOLEAN)` is true only when something is left after trimming blanks |
| Php.TrimEndBlanks | Shortcodes.class.php:405 | blanks appended at the end do not change the right-trimmed text |
| Php.TrimStartBlanks | Shortcodes.class.php:405 | blanks prefixed at the start do not change the left-trimmed text |
| Php.TrimAroundIs | Shortcodes.class.php:405 | trimming blanks from both ends of blanks + core + blanks gives back exactly the core |
| Php.FilterBooleanIgnoresBlanks | Shortcodes.class.php:405 | a value surrounded by blanks is true exactly when its core, lower-cased, is "1", "true", "on" or "yes" |
| Php.Unescape | Shortcodes.class.php:332-348 | `stripcslashes` never lengthens its input |
| Php.UnescapeWithoutBackslash | Shortcodes.class.php:332-348 | text without a backslash passes through `stripcslashes` unchanged |
| Scanner.RenderLength | Shortcodes.class.php:263-279 | the text of a match is at least two characters longer than its body |
| Scanner.BuildAfter | Shortcodes.class.php:263-277 | the part after the first `]` (body and closing tag) ends after that bracket and inside the text |
| Scanner.BuildTail | Shortcodes.class.php:263-277 | after group 3 the text is exactly `/]`, `]`, or `]` + body + `[/name]`, as the match record says |
| Scanner.BuildTailSelf | Shortcodes.class.php:264-265 | a self-closing tag ends in `/]` right after group 3 |
| Scanner.BuildTailClosed | Shortcodes.class.php:267-276 | an enclosing tag continues with `]`, the body and its own closing tag |
| Scanner.BuildTailOpen | Shortcodes.class.php:267 | an opening tag without a closing tag ends at its `]` |
| Scanner.BuildHead | Shortcodes.class.php:254-262 | the name and group 3 lie in the text one after the other, before the first `]` |
| Scanner.BuildCore | Shortcodes.class.php:254-277 | name, attributes and tail of a built match are exactly the text between group 1 and group 6 |
| Scanner.BuildText | Shortcodes.class.php:251-279 | group 0 starts at the opening bracket, lies inside the text, and takes a closing `]` as group 6 exactly when one follows |
| Scanner.BuildRender | Shortcodes.class.php:251-279 | the text of a built match is the slice it covers and is what its record renders to |
| Scanner.BuildAtts | Shortcodes.class.php:256-265 | group 3 holds no `]`, ends in `/` only when group 4 (the self-closing `/`) is set, and a body exists only for the enclosing form |
| Scanner.BuildBody | Shortcodes.class.php:269-276 | the body contains no closing tag for the name; an unclosed tag has no closing tag anywhere after it |
| Scanner.BuildShape | Shortcodes.class.php:251-279 | a built match starts at the bracket, keeps the chosen group 1 and name, and has the full shape of a PCRE match |
| Scanner.BuildEscClose | Shortcodes.class.php:279 | group 6 is unset only when no `]` follows the match |
| Scanner.Build | Shortcodes.class.php:251-279 | the match record keeps the offset, group 1 and name it was built from and ends inside the text |
| Scanner.Finish | Shortcodes.class.php:255-279 | a match is only produced for a whole name, and it keeps the offset, group 1 and name and ends inside the text |
| Scanner.FinishSpec | Shortcodes.class.php:255-279 | once group 1 and the name are fixed, the pattern succeeds exactly when the name is whole and a `]` follows, and the match has the PCRE shape |
| Scanner.FinishWithoutBracket | Shortcodes.class.php:256-267 | with no `]` after a whole name the pattern fails |
| Scanner.FinishWithBracket | Shortcodes.class.php:256-267 | with a `]` after a whole name the pattern succeeds with the match built from the first such bracket |
| Scanner.TryName | Shortcodes.class.php:246-255 | a match from the name alternation keeps the offset and group 1 and names a registered tag |
| Scanner.TryNameSpec | Shortcodes.class.php:246-255 | the name alternation succeeds exactly when some registered name fits, and then with the first one in registry order |
| Scanner.TryAtSpec | Shortcodes.class.php:251-279 | the pattern matches at an offset exactly when a `[` is there and a name fits after it or after a second `[`; group 1 is set exactly when a name fits after `[[`; the match has the PCRE shape and the first fitting name |
| Scanner.TryAt | Shortcodes.class.php:251-279 | the pattern only matches at a `[`, starting there, with a registered name |
| Scanner.TryAtEscaped | Shortcodes.class.php:252-253 | at `[[` with a fitting name, group 1 takes the second bracket |
| Scanner.TryAtPlain | Shortcodes.class.php:252-253 | otherwise group 1 is empty |
| Scanner.TryAtBounds | Shortcodes.class.php:251-279 | a match starts at its offset, is non-empty, lies inside the text, renders to its text and names a registered tag |
| Scanner.TiledAll | Shortcodes.class.php:162 | every match of `preg_match_all` is what the pattern finds at its start, and matches do not overlap |
| Scanner.Scan | Shortcodes.class.php:162 | `preg_match_all` finds at most one match per remaining character |
| Scanner.ScanStep | Shortcodes.class.php:162 | the scan skips an offset without a match, or takes the match there and resumes at its end |
| Scanner.ScanCovers | Shortcodes.class.php:162 | no match is missed: every offset where the pattern matches lies inside a returned match |
| Scanner.ScanCoversSkip | Shortcodes.class.php:162 | the same, when no match starts at the scan position |
| Scanner.ScanCoversAt | Shortcodes.class.php:162 | the same, when a match starts at the scan position |
| Scanner.ScanTiled | Shortcodes.class.php:162 | the scan returns matches in order, each found by the pattern at its start and each after the previous one |
| Scanner.ScanLeftmost | Shortcodes.class.php:162 | the first match is leftmost (nothing matches before it) and the scan resumes exactly where it ended; an empty result means nothing matches |
| Scanner.ScanEmpty | Shortcodes.class.php:162 | where the pattern matches nowhere, the scan finds nothing |
| Scanner.MatchedNameIsWhole | Shortcodes.class.php:254-255 | a matched name is not followed by a word character or a hyphen, so `foo` never matches in `[foobar]` |
| Attributes.Normalize | Shortcodes.class.php:324 | replacing runs of invisible spaces by one space never lengthens the text |
| Attributes.NormalizeLeavesNoInvisible | Shortcodes.class.php:324 | no non-breaking or zero-width space survives |
| Attributes.NormalizeKeepsVisible | Shortcodes.class.php:324 | text without such spaces is left alone |
| Attributes.NormalizeRun | Shortcodes.class.php:324 | a whole run of invisible spaces becomes a single space |
| Attributes.NormalizeCons | Shortcodes.class.php:324 | the replacement of a text is the replacement of its first character in context followed by that of the rest |
| Attributes.NormalizeAppend | Shortcodes.class.php:324 | two texts that do not join two invisible spaces are replaced independently |
| Attributes.NormalizeThenRun | Shortcodes.class.php:324 | a run of invisible spaces at the end of a text becomes one space |
| Attributes.NormalizeRunBetween | Shortcodes.class.php:324 | a maximal run of invisible spaces between two texts becomes exactly one space, and the texts on either side are replaced on their own |
| Attributes.Boundary | Shortcodes.class.php:323 | `(?:\s\|$)` consumes at most one character and stays inside the text |
| Attributes.Assignment | Shortcodes.class.php:323 | `(\w+)\s*=\s*` yields a non-empty key, starts at a non-space, and the value starts inside the text |
| Attributes.QuotedAt | Shortcodes.class.php:323 | a quoted value match ends after its start and inside the text |
| Attributes.NamedAt | Shortcodes.class.php:323 | a `key=value` match, tried double-quoted, single-quoted, then unquoted, ends after its start and inside the text (which alternative wins is in the `TokenAt...` lemmas) |
| Attributes.TokenAt | Shortcodes.class.php:323 | a token of the five-alternative pattern ends after its start and inside the text |
| Attributes.AssignmentIs | Shortcodes.class.php:323 | where `(\w+)\s*=\s*` spans a prefix and a non-blank value follows, the reader returns that key and the value's offset |
| Attributes.QuotedAtIs | Shortcodes.class.php:323 | where a quoted string spans a stretch of text, the reader returns its contents and the offset after `(?:\s\|$)` |
| Attributes.AssignmentSpans | Shortcodes.class.php:323 | what the key reader accepts does span `(\w+)\s*=\s*` |
| Attributes.QuotedAtSpans | Shortcodes.class.php:323 | what the quoted reader accepts does span a quoted string and its boundary |
| Attributes.TokenAtDoubleQuoted | Shortcodes.class.php:323 | wherever alternative 1 matches, it is the token taken, with groups 1 and 2 as key and value |
| Attributes.TokenAtSingleQuoted | Shortcodes.class.php:323 | wherever alternative 2 matches, it is the token taken, with groups 3 and 4 |
| Attributes.TokenAtUnquoted | Shortcodes.class.php:323 | wherever alternative 3 matches, it is the token taken, with groups 5 and 6 |
| Attributes.TokenAtQuoted | Shortcodes.class.php:323 | wherever alternative 4 matches, it is the token taken, with group 7 |
| Attributes.NamedAtNone | Shortcodes.class.php:323 | when none of alternatives 1-3 matches, the `key=value` reader finds nothing |
| Attributes.TokenAtBare | Shortcodes.class.php:323 | where only alternative 5 matches, it is the token taken, with group 8 |
| Attributes.TokenAtSome | Shortcodes.class.php:323 | the attribute pattern matches at an offset exactly when a non-space character is there |
| Attributes.NoTokensIffBlank | Shortcodes.class.php:326 | `preg_match_all` finds nothing exactly when the rest of the text is white space |
| Attributes.TokensAt | Shortcodes.class.php:326 | from a non-space character the tokenizer yields at most one token per remaining character |
| Attributes.Tokens | Shortcodes.class.php:326 | `preg_match_all` over the attribute text yields at most one token per remaining character |
| Attributes.TokensStep | Shortcodes.class.php:326 | the tokenizer takes a token at a non-space character and skips a space |
| Attributes.Add | Shortcodes.class.php:330-349 | one step of the `foreach` keeps an array result |
| Attributes.Collect | Shortcodes.class.php:328-350 | the `foreach` over matches always yields an array |
| Attributes.ParseAtts | Shortcodes.class.php:320-357 | the loop that fills `$atts` returns what the reference parse defines |
| Attributes.ParseAttsOf | Shortcodes.class.php:320-357 | the scalar fallback is never longer than the attribute text |
| Attributes.PositionalSnoc | Shortcodes.class.php:342-349 | one more match appends at most its own unescaped positional value |
| Attributes.CollectPositional | Shortcodes.class.php:342-349 | positional values are exactly the non-empty quoted strings and bare tokens, unescaped, in the order they occur |
| Attributes.AddKeys | Shortcodes.class.php:330-341 | one step adds exactly the key its token defines (lower-cased, never the key "0") |
| Attributes.CollectNamedKeys | Shortcodes.class.php:330-341 | a key is present exactly when some token defines it |
| Attributes.CollectNamedValue | Shortcodes.class.php:330-341 | a key's value is the unescaped value of the last token that defines it, so later duplicates win |
| Attributes.ParseFallback | Shortcodes.class.php:326-355 | the scalar fallback is returned exactly when the normalised text is blank, and it is the left-trimmed text |
| Schema.ResolveAll | Shortcodes.class.php:393-433 | the output has one entry per schema entry, in schema order, under the schema's key, resolved from that entry alone |
| Schema.FoundIffContains | Shortcodes.class.php:399-401 | the search from offset 0 succeeds exactly when the text occurs somewhere |
| Schema.MatchesBooleanPattern | Shortcodes.class.php:399-401 | the `'boolean'` rule accepts a value exactly when one of `1 0 yes no true false` occurs somewhere in it |
| Schema.Resolve | Shortcodes.class.php:395-431 | a key the user did not give gets the default; a plain entry takes the user value as given; a value its rule rejects gets the fallback; a value its rule accepts comes back verbatim, or coerced by `filter_var` under the boolean rule; any result other than the default is the user's value, verbatim or so coerced |
| Schema.UnknownKeysIgnored | Shortcodes.class.php:390-433 | a user attribute whose key is not in the schema has no effect on the output |
| Schema.BooleanRuleIsUnanchored | Shortcodes.class.php:399-405 | "nothing" passes the boolean rule (it contains "no") and is coerced to false |
| Schema.NothingMatches | Shortcodes.class.php:399-401 | "nothing" matches the unanchored boolean pattern |
| Schema.NothingIsFalse | Shortcodes.class.php:405 | `filter_var` gives false for "nothing" |
| Schema.BooleanRuleIsCaseSensitive | Shortcodes.class.php:399-415 | "TRUE" fails the case-sensitive boolean pattern and gets the fallback verbatim, with no coercion |
| Engine.DoShortcodeTag | Shortcodes.class.php:292-305 | a match escaped on both sides comes out as the literal tag with one bracket fewer on each side; any other match becomes its group 1, the handler's output on the parsed attributes, body and name, then its group 6 |
| Engine.StripShortcodeTag | Shortcodes.class.php:480-489 | a doubly escaped match comes out as the literal tag with one bracket fewer on each side; any other match leaves only its groups 1 and 6; either way the text gets shorter |
| Engine.TagProper | Shortcodes.class.php:300-304 | a match not escaped on both sides is group 1, then `[` and the tag, then group 6 |
| Engine.TagEscaped | Shortcodes.class.php:295-298 | dropping the outer brackets of a doubly escaped match leaves `[` and the tag |
| Engine.EscapedTagIsLiteral | Shortcodes.class.php:295-298 | on a doubly escaped match, expanding and stripping give the same text, whatever the handlers |
| Engine.Splice | Shortcodes.class.php:211-215 | `preg_replace_callback` copies the text before the first match unchanged, and copies all of it when nothing matched |
| Engine.SpliceOne | Shortcodes.class.php:211-215 | with a single match, the result is the text before it, its replacement, and the text after it |
| Engine.Pass | Shortcodes.class.php:464-468 | a stripping pass never lengthens the text and shortens it when something matched |
| Engine.PassWithoutMatches | Shortcodes.class.php:211-215 | a pass over text where the pattern matches nowhere leaves it unchanged |
| Engine.StripShrinks | Shortcodes.class.php:464-468 | a stripping pass never lengthens the text, and shortens it whenever something matched |
| Engine.StripIsSilentExpansion | Shortcodes.class.php:480-489 | stripping is the same as expanding with handlers that all return "" |
| Engine.Has | Shortcodes.class.php:150-185 | detection needs a `[` in the text, a match of the pattern, and a registered tag when one is asked for |
| Engine.HasAnyIffMatch | Shortcodes.class.php:150-171 | without a tag, detection holds exactly when the pattern matches somewhere |
| Engine.HasNested | Shortcodes.class.php:173-184 | a registered tag inside the body of a top-level match is detected |
| Engine.SettlesStep | Shortcodes.class.php:210-219 | a pass after which the loop goes on adds one to the number of passes it runs |
| Engine.Loop | Shortcodes.class.php:210-219 | the loop returns the content after exactly as many passes as it runs |
| Engine.Expansion | Shortcodes.class.php:208-221 | `do_shortcode` runs between one and ten passes, returns the content after them, and stops before ten only when no shortcode remains |
| Engine.LoopBound | Shortcodes.class.php:210-219 | the do-while loop runs at least one pass and at most ten, keeps going while shortcodes remain, stops early only once none remain, and returns the content after that many passes |
| Engine.Without | Shortcodes.class.php:105 | `unset` removes exactly the named key from the key order, keeps the others and keeps them distinct |
| Engine.WithoutKeepsOrder | Shortcodes.class.php:105 | removing a key keeps the other keys in their order: the key order with that one entry cut out |
| Engine.Shortcodes.constructor | Shortcodes.class.php:61-65 | a new engine has the given hooks and an empty registry |
| Engine.Shortcodes.AddShortcode | Shortcodes.class.php:87-93 | a callable handler is stored under the tag and overwrites an earlier binding; a new tag joins the end of the order; a value that is not callable changes nothing |
| Engine.Shortcodes.RemoveShortcode | Shortcodes.class.php:103-106 | only the named binding goes; every other binding and its place in the order is kept |
| Engine.Shortcodes.RemoveAllShortcodes | Shortcodes.class.php:118-121 | the registry becomes empty and the hooks are kept |
| Engine.Shortcodes.ShortcodeExists | Shortcodes.class.php:132-135 | a tag exists exactly when it is a key of the registry |
| Engine.Shortcodes.HasShortcode | Shortcodes.class.php:150-185 | the loop with early returns decides `Has`: a `[` must occur, a requested tag must be registered, and the tag must be a match's name or be found recursively in a non-empty body |
| Engine.Shortcodes.DoShortcode | Shortcodes.class.php:200-222 | with an empty registry the content is returned as it is; otherwise the result is the content after n passes, where 1 <= n <= 10, shortcodes remained after each earlier pass, and none remain when n < 10 |
| Engine.Shortcodes.StripShortcodes | Shortcodes.class.php:455-469 | with an empty registry the content is returned as it is; otherwise exactly one stripping pass runs, never lengthens the content, and shortens it when a shortcode is present |
| Engine.Shortcodes.ShortcodeAtts | Shortcodes.class.php:388-444 | the `foreach` fills `$out` with the schema resolution; the `shortcode_atts_<tag>` filter gets the last word only when a non-empty tag is given and a hook dispatcher is attached |
| Scenarios.SelfClosingTag | Shortcodes.class.php:200-222 | `[b/]` is replaced by its handler's output in one pass |
| Scenarios.SelfClosingImage | Shortcodes.class.php:300-304 | the match `[b/]` becomes the handler's output |
| Scenarios.EscapedEnclosingPass | Shortcodes.class.php:295-298 | one pass over `[[t]x[/t]]` only unescapes it |
| Scenarios.EnclosingPass | Shortcodes.class.php:300-304 | a pass over `[t]x[/t]` calls the handler with empty attributes, the body `x` and the name `t` |
| Scenarios.EscapedTagExpandsOnSecondPass | Shortcodes.class.php:210-219 | the loop expands `[[t]x[/t]]` to the handler's output on its second pass |
| Scenarios.StrayEscapeBracketKept | Shortcodes.class.php:304 | `[[b/]` expands to `[X`: the stray escape bracket stays and the loop stops |
| Scenarios.StripUnescapes | Shortcodes.class.php:483-486 | stripping `[[foo]]` leaves `[foo]` |
| Scenarios.StripRemoves | Shortcodes.class.php:488 | stripping `[foo]` leaves nothing |
| Scenarios.StripNotIdempotent | Shortcodes.class.php:455-469 | stripping twice differs from stripping once on `[[foo]]` |
| Scenarios.NestedTagDetected | Shortcodes.class.php:173-184 | `b` is detected inside the body of `a` in `[a][b/][/a]` |
| Scenarios.LongerNameNotMatched | Shortcodes.class.php:255 | a registered `foo` finds nothing in `[foobar]` |
| Scenarios.EmptyAtts | Shortcodes.class.php:352-355 | empty attribute text parses to the empty scalar |
| Scenarios.FirstToken | Shortcodes.class.php:323 | the double-quoted alternative takes `type="info"` and its trailing space |
| Scenarios.SecondToken | Shortcodes.class.php:323 | the bare-token alternative takes `bold` |
| Scenarios.ParseExample | Shortcodes.class.php:320-357 | `type="info" bold` parses to the key `type` with `info`, and one positional `bold` |
| Scenarios.YesIsTrue | Shortcodes.class.php:405 | `filter_var` coerces "yes" to true |
| Scenarios.ResolveBoolean | Shortcodes.class.php:399-405 | a value accepted by the boolean rule is coerced by `filter_var` |
| Scenarios.FlagResolves | Shortcodes.class.php:399-405 | the user value "yes" under the boolean rule resolves to true |
| Scenarios.ColorFallsBack | Shortcodes.class.php:412-415 | a value rejected by its rule gets the fallback |
| Scenarios.SizeKeepsDefault | Shortcodes.class.php:424-431 | a schema key the user did not give keeps its default |
| Scenarios.SchemaExample | Shortcodes.class.php:393-433 | a three-entry schema gives the fallback colour, the coerced flag and the default size, and drops the unknown user key |

## Left out

- Handlers and hooks. Handlers are pure function values; the fourth handler argument (a reference to `shortcode_atts`) and re-entrancy of handlers into the engine are not modelled. The `Hooks` dispatcher is an optional function value.
- `is_callable` is a flag on the value passed to `AddShortcode` (`Callable` or `NotCallable`); `call_user_func` is plain application.
- User validation rules run by `preg_match` are an abstract matcher; only the fixed `'boolean'` pattern is modelled concretely.
- The `is_array($this->shortcode_tags)` test is always true in the model: the registry is always an array.
- PHP array keys: a numeric-string attribute key such as `5` becomes an integer key in PHP and shifts where later positional values go. The model keeps named and positional values apart.
- `(array)$atts` in `shortcode_atts`: user attributes are a map from string keys to string values.
- `$pairs` is a sequence of entries; PHP arrays cannot repeat a key, and the model does not enforce that.
- PCRE cost: possessive quantifiers, backtracking cost and adversarial inputs. Only which match is found is modelled.
- `preg_quote` without a delimiter (line 247): the model assumes registered names contain no `/`. Such a name is left unescaped and ends the `/.../` pattern early, so the pattern does not compile: `has_shortcode` then returns false and `do_shortcode` and `strip_shortcodes` return null. The model matches such a name literally instead. Other escaping only makes names match literally, which the model does directly.
- Character encoding: the model works on code points throughout. PHP works on bytes, except the `/u` replacement of invisible spaces (line 324), which reads UTF-8 code points. For ASCII text the two agree. A `\xHH` escape yields one byte in PHP and the character with that code in the model. On malformed UTF-8, `preg_replace` returns null and `shortcode_parse_atts` then returns `ltrim(null)`, the empty string; this is not modelled.
- tests/HooksTest.php tests the external `Hooks` class, which is not part of this model.
- Php.Unescape: the contract states only the length bound and the identity on text without backslashes; the escape table itself is in the body.
- Attributes.Normalize: the function's own contract states only the length bound. That each maximal run becomes exactly one space is proved in `NormalizeRun`, `NormalizeAppend` and `NormalizeRunBetween`; that nothing invisible survives and other text is kept is in `NormalizeLeavesNoInvisible` and `NormalizeKeepsVisible`.
