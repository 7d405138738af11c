# Roam theme scripts and CSS tools, modelled in Dafny

This project models the scripting side of a Roam Research theme:

- the combined page script `Roam.js`:
  - the day/night theme toggle (`JS/Theme-Toggle.js` is the same code and is covered by the same model);
  - the smiley checkbox pass;
- the two tag scripts `JS/Tag-HideHash.js` and `JS/Tag.js`;
- the stylesheet refactoring script `scripts/refactor_roam_css.py`;
- the CSS analysis tools under `tools/`:
  - redundancy, shorthand candidates and adjacent-merge candidates;
  - the audit;
  - the compactor;
  - the selector-header scan.

The model has two rules of thumb:

- **Browser scripts.** Each becomes a class whose fields are the page state the script reads and writes: class lists, the stored mode, the button, the pending flag, a span's text and marker attribute. Each event handler becomes a method.
- **Python tools.** Each becomes a set of functions that specify the tool, plus methods that loop as the tool does. Each method is proved equal to its specifying function. Python dicts are insertion-ordered association lists (`OrderedDict.Dict`), and strings are `seq<char>`.

Shared modules:

- `Wrappers`: `Option`.
- `Strings`: Python's `strip`, `split`, `join`, `lower`, `in`, `startswith`, `replace` and `find`, with their laws.
- `OrderedDict`: dict insertion, update and lookup, with the "last write wins, first insertion fixes the order" laws.
- `Lists`: filtered folds.
- `Sorting`: a stable insertion sort, standing in for Python's `sorted`.
- `CssAst`: the nested rule tree the tools build from a stylesheet.
- `CssSelectors`: the selector normalisations the tools share.

## Model

| member | source | states |
|---|---|---|
| ThemeToggle.CycleIndex | Roam.js:17 | `CYCLE.indexOf(m)`: -1 exactly for a string outside the three modes, otherwise the index holding `m` |
| ThemeToggle.GetStored | Roam.js:14-21 | the stored mode is always one of the three; it is the stored value when that is a mode, otherwise "auto" (also when the read throws) |
| ThemeToggle.GetStoredStable | Roam.js:14-21 | validating a value that was already validated changes nothing |
| ThemeToggle.NextMode | Roam.js:58 | the next mode is always one of the three |
| ThemeToggle.NextModeSteps | Roam.js:56-61 | the activations go auto to light, light to dark, dark to auto |
| ThemeToggle.CyclePeriodThree | Roam.js:56-61 | no activation keeps the mode, two do not return to it, three do |
| ThemeToggle.CycleFromAnyStorage | Roam.js:56-61 | whatever storage holds, the cycle restarts from a valid mode and has period three |
| ThemeToggle.EffectiveDarkDependsOnlyOnAuto | Roam.js:29-38 | "dark" is always dark and "light" never; only "auto" follows the media query, and it is light when the query throws |
| ThemeToggle.IconName | Roam.js:63-67 | the icon is one of flash, moon, repeat |
| ThemeToggle.IconNameDistinguishesModes | Roam.js:63-67 | the three modes show three different icons |
| ThemeToggle.TooltipEndsWithSuffix | Roam.js:78-83 | every tooltip is a non-empty mode title followed by the " · 点击切换" hint |
| ThemeToggle.TooltipDependsOnDarkOnlyInAuto | Roam.js:78-83 | the tooltip depends on the effective theme exactly in "auto" mode, where it tells the two themes apart |
| ThemeToggle.Page.Mode | Roam.js:14-21 | the page's mode is always a valid mode |
| ThemeToggle.Page.SetStored | Roam.js:23-27 | a write to working storage stores the mode; a throwing write leaves storage as it was |
| ThemeToggle.Page.SetThemeClass | Roam.js:40-48 | `rm-dark-theme` is on both `body` and `html` exactly when dark; no other class changes |
| ThemeToggle.Page.UpdateButtonIcon | Roam.js:69-84 | without a button nothing changes; with one, its icon and tooltip show the current mode and theme |
| ThemeToggle.Page.ApplyEffectiveTheme | Roam.js:50-54 | afterwards the classes match the effective theme and the button matches the mode; other classes are kept |
| ThemeToggle.Page.CycleMode | Roam.js:56-61 | the mode advances one step when storage works and stays otherwise; theme and button then match it, and no class other than `rm-dark-theme` changes |
| ThemeToggle.Page.SetupSystemListener | Roam.js:120-129 | the change listener is registered exactly when the media query works |
| ThemeToggle.Page.AmbientChanged | Roam.js:124-126 | a system theme change re-applies the theme in "auto" mode, changing no class other than `rm-dark-theme`, and leaves the page untouched in the other modes |
| ThemeToggle.Page.CreateToggle | Roam.js:100-118 | a button is inserted exactly when there is none and the top bar exists; a new button shows the current mode and theme |
| ThemeToggle.Page.TryCreateToggle | Roam.js:131-140 | the theme class is applied and no other class changes; the listener is set up exactly when the media query works; at most one button ever exists; it appears at the first tick at which the top bar exists, provided that tick is at most 50; the retry stops at that tick or at 50 |
| ThemeToggle.Page.InsertToggle | Roam.js:134-139 | the immediate try and then the interval: at most one button, inserted at the first tick with a top bar if that tick is at most 50, the interval cleared at that tick or at 50 |
| ThemeToggle.Page.Retry | Roam.js:135-139 | the interval ticks until insertion succeeds or 50 ticks have passed, and adds at most one button |
| ThemeToggle.Page.Tick | Roam.js:137-138 | one interval tick: one insertion attempt against the top bar as it is at that tick |
| ThemeToggle.CreateToggleTwice | Roam.js:100-101 | a second insertion never adds a second button |
| SmileyCheckbox.Decorate | Roam.js:162-168 | a selected checkmark without a face gains exactly one `smiley-face` child; any other span is unchanged |
| SmileyCheckbox.Inject | Roam.js:160-170 | one pass decorates each checkmark independently and keeps the count |
| SmileyCheckbox.InjectCovers | Roam.js:160-170 | after a pass every selected checkmark has a face; a span that had one, or is not selected, is untouched |
| SmileyCheckbox.InjectIdempotent | Roam.js:160-170 | a second pass changes nothing |
| SmileyCheckbox.InjectSmileyFace | Roam.js:160-170 | the in-place `forEach` over the checkmark array performs exactly one pass |
| SmileyCheckbox.WatchedClassBelowIsRelevant | Roam.js:185-199 | an added element with a watched class anywhere in its subtree, itself included, triggers a pass |
| SmileyCheckbox.RelevantHasWatchedBelow | Roam.js:185-199 | conversely, a node that triggers a pass has a watched class somewhere in its subtree |
| SmileyCheckbox.SmileyScript.Start | Roam.js:157-172 | the script runs a first pass only on its first evaluation in a window; later evaluations change nothing |
| SmileyCheckbox.SmileyScript.ScheduleInject | Roam.js:174-182 | while a frame callback is pending, further requests add nothing; otherwise exactly one is queued |
| SmileyCheckbox.SmileyScript.OnMutations | Roam.js:184-202 | a relevant batch leaves a pass pending; an irrelevant one changes nothing |
| SmileyCheckbox.SmileyScript.FrameFired | Roam.js:178-181 | the pending flag is cleared before the pass runs, so a pass that throws does not block later scheduling |
| SmileyCheckbox.Debounce | Roam.js:175-177 | any number of requests before a frame leaves exactly one callback queued |
| TagSpans.StripHashCases | JS/Tag-HideHash.js:11-17 | a marked span is kept; text that does not start with "#" is kept; otherwise the first character is dropped and the marker is set |
| TagSpans.StripHashIdempotent | JS/Tag-HideHash.js:11-17 | stripping twice is stripping once, also for text such as "##x" |
| TagSpans.StripHashOnDoubleHash | JS/Tag-HideHash.js:11-17 | "##x" becomes "#x" and stays so |
| TagSpans.ApplyAtIdempotent | JS/Tag-HideHash.js:19-23 | an idempotent patch applied along any target list patches each listed span once and leaves the others |
| TagSpans.ApplyAtDistinct | JS/Tag.js:21-31 | any patch applied along distinct targets patches each listed span once and leaves the others |
| TagSpans.ApplyAtAppend | JS/Tag-HideHash.js:37-43 | applying along `a + b` is applying along `a`, then along `b` |
| TagSpans.BatchInRangeTargets | JS/Tag-HideHash.js:37-43 | the spans a batch of mutation records touches are all on the page |
| TagHideHash.StripHashIsIdempotent | JS/Tag-HideHash.js:11-17 | `stripHash` is idempotent on every span |
| TagHideHash.Scan | JS/Tag-HideHash.js:19-23 | `scan` strips the selected spans in document order, in place |
| TagHideHash.ScanEffect | JS/Tag-HideHash.js:19-23 | after a scan each selected span is stripped once and every other span is unchanged |
| TagHideHash.RescanIsNoop | JS/Tag-HideHash.js:19-23 | scanning the same spans again changes nothing |
| TagHideHash.HandleAddedNode | JS/Tag-HideHash.js:38-42 | a non-element is skipped; an element is stripped when it matches, then its subtree is scanned |
| TagHideHash.OnMutations | JS/Tag-HideHash.js:36-44 | the observer callback strips, in order, the spans its batch reaches |
| TagHideHash.Run | JS/Tag-HideHash.js:25-27 | the first scan of the body strips every span once |
| TagInk.StripUnchecked | JS/Tag.js:24-28 | a span whose text starts with "#" loses that character and is marked; any other span is kept |
| TagInk.StripUncheckedVersusStripHash | JS/Tag.js:21-31 | on an unmarked span the inline strip agrees with `stripHash`; on a marked span that still starts with "#" it differs |
| TagInk.Scan | JS/Tag.js:21-31 | `scan` applies the inline strip to the selected spans, in place |
| TagInk.ScanEffect | JS/Tag.js:21-31 | one scan strips each selected span once and leaves the others |
| TagInk.TwoScansOnDoubleHash | JS/Tag.js:21-31 | two scans over "##x" leave "x": the marker written by the first does not stop the second |
| TagInk.HandleAddedNode | JS/Tag.js:78-88 | a non-element is skipped; a matching element is stripped inline, then its subtree is scanned |
| TagInk.OnMutations | JS/Tag.js:76-90 | the observer callback strips the spans its batch reaches, in order |
| TagInk.InkWindow.InitInkPulse | JS/Tag.js:34-62 | the mousedown listener is registered once per window; once the flag is set, later calls add none |
| TagInk.InkWindow.Run | JS/Tag.js:64-67 | `run` leaves one listener and strips every span of the body once |
| TagInk.RunRepeatedly | JS/Tag.js:34-61 | evaluating the script any number of times in a window leaves at most one listener |
| RefactorCss.IsColorOrFontNormalised | scripts/refactor_roam_css.py:18-24 | surrounding whitespace and letter case never change the colour-or-font verdict |
| RefactorCss.SameKey | scripts/refactor_roam_css.py:18-24 | two property names equal after strip and lower get the same verdict |
| RefactorCss.MatchesStartIff | scripts/refactor_roam_css.py:30 | the index-based prefix test is exactly `startswith` |
| RefactorCss.ContainsFromIff | scripts/refactor_roam_css.py:30 | the index-based substring test is exactly Python's `in` on the suffix |
| RefactorCss.WordSpacesAt | scripts/refactor_roam_css.py:31 | a match of `word\s+` runs to the end of the text or stops before a non-blank |
| RefactorCss.BodyAppCount | scripts/refactor_roam_css.py:30-31 | the first removal takes a prefix, and never stops inside whitespace |
| RefactorCss.AppCountAt | scripts/refactor_roam_css.py:33-34 | the second removal stays within the text and never stops inside whitespace |
| RefactorCss.NormalizeSelectorSpec | scripts/refactor_roam_css.py:26-35 | the normalised selector is a suffix of the stripped selector, with no whitespace at its ends |
| RefactorCss.NormalizeStripped | scripts/refactor_roam_css.py:29-35 | the two removals only drop a prefix and keep the ends free of whitespace |
| RefactorCss.NormalizeSelectorKeepsOthers | scripts/refactor_roam_css.py:26-35 | a selector that starts with neither prefix is only stripped |
| RefactorCss.NormalizeSystemForm | scripts/refactor_roam_css.py:29-31 | ".roam-body .roam-app X" is keyed by X |
| RefactorCss.NormalizeRoamForm | scripts/refactor_roam_css.py:32-34 | ".roam-app X" is keyed by X when the `.roam-app` prefix is dropped, and kept whole otherwise |
| RefactorCss.RoamFormKeepsBody | scripts/refactor_roam_css.py:30 | the first removal does not touch ".roam-app X" |
| RefactorCss.RemoveComments | scripts/refactor_roam_css.py:41 | removal never lengthens the text; text without "/*" is unchanged |
| RefactorCss.FindCloseAfter | scripts/refactor_roam_css.py:41 | the non-greedy match ends at the first "*/" |
| RefactorCss.RemoveLeadingComment | scripts/refactor_roam_css.py:41 | a leading comment is removed whole, however much follows |
| RefactorCss.RemoveCommentsKeepsPrefix | scripts/refactor_roam_css.py:41 | text before the first "/*" is kept |
| RefactorCss.RemoveOneComment | scripts/refactor_roam_css.py:41 | one comment is cut out, with what precedes it kept and what follows it processed further |
| RefactorCss.ParseBlock | scripts/refactor_roam_css.py:44-53 | a block yields a pair only when it holds '{' and is not an at-rule; the selector and declarations are non-empty, stripped, and taken from the block |
| RefactorCss.ParseCssRules | scripts/refactor_roam_css.py:37-54 | the parser loop returns the pairs of the comment-free blocks, in order |
| RefactorCss.ParseBlockWellFormed | scripts/refactor_roam_css.py:44-53 | a block without '}' yields a well-formed pair |
| RefactorCss.ParsedRulesWellFormed | scripts/refactor_roam_css.py:44-53 | every pair the block loop keeps is well formed |
| RefactorCss.ParseCssRulesWellFormed | scripts/refactor_roam_css.py:37-54 | whatever the stylesheet, every parsed rule is well formed |
| RefactorCss.PartEntry | scripts/refactor_roam_css.py:59-65 | a part without ':' is ignored; otherwise property and value are stripped, and the property holds no ':' |
| RefactorCss.PartEntryChars | scripts/refactor_roam_css.py:63-65 | property and value are made of the part's own characters |
| RefactorCss.DeclsDict | scripts/refactor_roam_css.py:56-66 | the parsed dict has each property once |
| RefactorCss.DeclarationsToDict | scripts/refactor_roam_css.py:56-66 | the part loop builds the dict of the parts, a later part overwriting an earlier one |
| RefactorCss.DeclsDictKeys | scripts/refactor_roam_css.py:56-66 | a property is in the dict exactly when some part declares it |
| RefactorCss.DictToDeclarations | scripts/refactor_roam_css.py:68-69 | the printed declarations are empty exactly for the empty dict |
| RefactorCss.PieceEntry | scripts/refactor_roam_css.py:59-69 | each printed `k: v` piece, with or without the blank of its separator, parses back to its entry |
| RefactorCss.SplitDeclarations | scripts/refactor_roam_css.py:59-69 | splitting the printed declarations on ';' gives back each piece, all but the first behind one blank |
| RefactorCss.DeclarationsRoundTrip | scripts/refactor_roam_css.py:56-69 | parsing what `dict_to_declarations` prints gives back the dict, order included, for every dict of stripped properties and values free of ':' and ';' |
| RefactorCss.DeclsDictWellFormed | scripts/refactor_roam_css.py:56-66 | every parsed dict satisfies the round trip's precondition |
| RefactorCss.ExtractLayout | scripts/refactor_roam_css.py:71-73 | the layout dict is never longer than the dict |
| RefactorCss.ExtractLayoutSpec | scripts/refactor_roam_css.py:71-73 | the layout holds exactly the non-colour, non-font properties, with their values |
| RefactorCss.ExtractLayoutUnique | scripts/refactor_roam_css.py:71-73 | filtering keeps the keys distinct |
| RefactorCss.MergedSpec | scripts/refactor_roam_css.py:75-84 | the merged rule sets the properties of both sides; roam's value wins for colours, fonts and properties the system lacks; the system's value wins for every other property |
| RefactorCss.MergedUnique | scripts/refactor_roam_css.py:78-83 | the merged dict has each property once |
| RefactorCss.MergeDicts | scripts/refactor_roam_css.py:78-83 | the merge loop builds exactly the merged dict |
| RefactorCss.MergeRule | scripts/refactor_roam_css.py:75-84 | `merge_rule` prints the merge of the parsed roam declarations with the system layout |
| RefactorCss.MergedWellFormed | scripts/refactor_roam_css.py:75-84 | merging well-formed dicts gives a well-formed dict |
| RefactorCss.MergeRuleReparses | scripts/refactor_roam_css.py:75-84 | parsing what `merge_rule` prints gives back the merged dict |
| RefactorCss.BuildSystemMap | scripts/refactor_roam_css.py:99-107 | the system-rule loop builds the layout map of the specification |
| RefactorCss.RuleLayoutValid | scripts/refactor_roam_css.py:102 | a rule's layout is well formed and free of colours and fonts |
| RefactorCss.AddSystemRuleValid | scripts/refactor_roam_css.py:103-107 | adding one system rule keeps the map valid |
| RefactorCss.SystemMapValid | scripts/refactor_roam_css.py:99-107 | every value of the layout map is a well-formed dict of layout properties only |
| RefactorCss.AddSystemRuleKeys | scripts/refactor_roam_css.py:101-107 | a rule adds its normalised selector as a key exactly when its layout is non-empty |
| RefactorCss.SystemMapKeys | scripts/refactor_roam_css.py:99-107 | the map is keyed by exactly the normalised selectors of the system rules with a non-empty layout |
| RefactorCss.AliasStepKeys | scripts/refactor_roam_css.py:110-115 | one alias step adds the short form of a key that starts with the prefix, and nothing else |
| RefactorCss.AddAliases | scripts/refactor_roam_css.py:110-115 | the loop over the key snapshot, reading and writing the live map, performs the alias steps in order |
| RefactorCss.AliasedGrows | scripts/refactor_roam_css.py:110-115 | aliasing only ever adds keys |
| RefactorCss.AliasedKeys | scripts/refactor_roam_css.py:110-115 | after the loop the map holds its old keys, plus the alias of every snapshot key that starts with the prefix, and nothing else |
| RefactorCss.AliasedValid | scripts/refactor_roam_css.py:110-115 | aliasing keeps every value a well-formed layout-only dict |
| RefactorCss.AliasedNoop | scripts/refactor_roam_css.py:110-115 | when no key starts with the prefix the loop changes nothing |
| RefactorCss.AliasAsWrittenSkipsClassKeys | scripts/refactor_roam_css.py:111 | with the prefix as written, no class-selector key ever gets an alias |
| RefactorCss.AliasAsWrittenMissesArticle | scripts/refactor_roam_css.py:109-115 | as written, the system's ".roam-main .roam-article" key yields no ".roam-article" alias |
| RefactorCss.AliasStepNewAlias | scripts/refactor_roam_css.py:112-115 | a new alias receives a copy of its key's layout |
| RefactorCss.AliasCorrectedAddsArticle | scripts/refactor_roam_css.py:109-115 | with the intended prefix ".roam-main ", the ".roam-article" alias is made and carries that layout |
| RefactorCss.RuleParts | scripts/refactor_roam_css.py:124-126 | the declarations after the last '{' hold no '{' |
| RefactorCss.RebuiltParts | scripts/refactor_roam_css.py:118-140 | each part is rebuilt on its own and the count is kept |
| RefactorCss.RebuildPart | scripts/refactor_roam_css.py:120-140 | the loop body rewrites exactly the parts that match and keeps every other part verbatim |
| RefactorCss.Rebuild | scripts/refactor_roam_css.py:118-141 | split on '}', rebuild each part, and join with '}' |
| RefactorCss.RebuildNoMatchIsIdentity | scripts/refactor_roam_css.py:118-141 | a stylesheet none of whose rules match comes out unchanged |
| RefactorCss.RebuildEmptyMapIsIdentity | scripts/refactor_roam_css.py:118-141 | with no system layouts the rebuild is the identity |
| RefactorCss.RebuiltPartShape | scripts/refactor_roam_css.py:136-138 | a rewritten part keeps everything up to its last '{' and ends with a line break |
| RefactorCss.RebuiltSingleLineReparses | scripts/refactor_roam_css.py:133-138 | a rewritten one-line rule holds the merged dict's printout, and parsing it yields roam's colours and fonts together with the system's layout |
| RefactorCss.RefactorRoamCss | scripts/refactor_roam_css.py:86-141 | the whole pass without I/O, for an alias prefix given as a parameter (`ALIAS_PREFIX_AS_WRITTEN` is the program as written, `ALIAS_PREFIX` the intended one): the layout map is valid and is the system map with the aliases of that prefix, and the output is the rebuild against it |
| CssAst.DeclList | tools/css_redundancy.py:30-46 | one record per declaration at most, other items skipped, each value stripped |
| CssAst.DeclListOfDeclarations | tools/css_redundancy.py:35-45 | a list of declarations only gives one record per declaration, in order |
| CssAst.DeclListAppend | tools/css_redundancy.py:35-45 | the records of a concatenation are the records of its parts, in order |
| CssAst.DeclListSkipsOther | tools/css_redundancy.py:36-37 | items that are not declarations make no difference |
| CssAst.LastIndex | tools/css_redundancy.py:98-99 | `max(i for i, d ... if d.name == name)`: the last position of the name, or -1 when the name is absent |
| CssAst.LastIndexOfIsLast | tools/css_redundancy.py:98-99 | the last declaration of a name is the one found |
| CssAst.LastBy | tools/css_redundancy.py:64-82 | the `seen` dict has each property once |
| CssAst.LastBySpec | tools/css_redundancy.py:64-82 | `seen` holds a property exactly when some declaration has it, and maps it to the last such declaration |
| CssAst.LastBySnoc | tools/css_redundancy.py:82 | one loop step puts the current declaration |
| CssAst.WalkRules | tools/css_redundancy.py:12-23 | every walked rule carries a stripped context |
| CssAst.WalkRule | tools/css_redundancy.py:14-23 | the same for the walk of one entry |
| CssAst.WalkAppend | tools/css_redundancy.py:12-23 | the walk of a concatenation is the concatenation of the walks, so source order is kept |
| CssAst.WalkFlat | tools/css_redundancy.py:22-23 | a stylesheet of qualified rules only is walked rule for rule, with an empty context |
| CssAst.WalkSkipsBlockless | tools/css_redundancy.py:18-19 | an at-rule without a block contributes nothing |
| CssAst.TopKeyShape | tools/css_redundancy.py:17 | a top-level at-rule key starts with "@" and is stripped |
| CssAst.TopKeyContext | tools/css_redundancy.py:21-23 | stripping the " &#124; " separator after a top-level key removes only its final space |
| CssAst.WalkNestedContext | tools/css_redundancy.py:15-23 | a rule directly inside a top-level at-rule gets the context "@kw prelude &#124;" |
| CssRedundancy.SameProps | tools/css_redundancy.py:64-82 | there are at most as many reports as declarations, and each names the rule's context and selector |
| CssRedundancy.CheckSameProp | tools/css_redundancy.py:64-82 | the first loop returns the reports of the specification and the `seen` dict of the last declarations |
| CssRedundancy.SamePropStep | tools/css_redundancy.py:65-82 | one iteration extends both by the current declaration |
| CssRedundancy.SeenStep | tools/css_redundancy.py:70 | the test against `seen` is exactly "the previous declaration of the property has the same value and importance"; the reported previous line is that declaration's |
| CssRedundancy.SamePropsIff | tools/css_redundancy.py:64-82 | a report is made exactly for each declaration that repeats the previous one of its property |
| CssRedundancy.DistinctPropertiesNoReports | tools/css_redundancy.py:70 | a block whose properties are all distinct has no report |
| CssRedundancy.BorderTopReports | tools/css_redundancy.py:86-92 | at most one `border-top` report per block, naming the block |
| CssRedundancy.BorderTopIff | tools/css_redundancy.py:86-92 | the report is made exactly when the last `border` and the last `border-top` are both "none" with equal importance; it carries the last `border-top`'s line |
| CssRedundancy.CheckBorderTop | tools/css_redundancy.py:86-92 | the check read off `seen` gives the report of the specification |
| CssRedundancy.LonghandReports | tools/css_redundancy.py:96-112 | at most one `background-color` report per block, naming the block |
| CssRedundancy.LonghandIff | tools/css_redundancy.py:96-112 | the report is made exactly when the last `background` follows the last `background-color` and both are `!important`; it carries that longhand's line |
| CssRedundancy.BlockChecks | tools/css_redundancy.py:58-112 | the three checks of one walked rule, skipping rules with an empty selector or no declarations |
| CssRedundancy.CheckAll | tools/css_redundancy.py:57-112 | the loop over the walked rules accumulates the three lists of the specification |
| CssRedundancy.CheckOne | tools/css_redundancy.py:57-112 | one iteration appends the reports of one rule |
| CssRedundancy.Run | tools/css_redundancy.py:49-124 | the report holds the three full counts and the first 50 entries of each list |
| CssRedundancy.ReportBounds | tools/css_redundancy.py:114-124 | each sample is the start of its list, at most 50 long, and the whole list when the count is at most 50 |
| CssRedundancy.BlockReportsShape | tools/css_redundancy.py:60-112 | the reports of one rule name its non-empty selector and its stripped context |
| CssRedundancy.ReportsHaveSelectors | tools/css_redundancy.py:57-112 | every report of the run names a non-empty selector and a stripped context |
| CssShorthand.SideKeysSorted | tools/css_shorthand_candidates.py:54-64 | the four side names are listed in the order `sorted` gives them |
| CssShorthand.StrLeCommonPrefix | tools/css_shorthand_candidates.py:64 | a common prefix does not change how strings compare |
| CssShorthand.ImportancesSingleton | tools/css_shorthand_candidates.py:57-59 | the importance set has one element exactly when the four last side declarations agree |
| CssShorthand.FourSide | tools/css_shorthand_candidates.py:48-67 | at most one candidate, for the base examined |
| CssShorthand.FourSideSpec | tools/css_shorthand_candidates.py:48-67 | a candidate exists exactly when all four sides are declared with one importance; its values and lines are those of the last declaration of each side, keyed by the side names in sorted order |
| CssShorthand.LastDecls | tools/css_shorthand_candidates.py:51-53 | the loop builds the dict of the last declaration of every name |
| CssShorthand.LastDeclsSides | tools/css_shorthand_candidates.py:54-55 | the subset test holds exactly when all four sides are declared, and the dict then holds their last declarations |
| CssShorthand.DictAgrees | tools/css_shorthand_candidates.py:57-66 | the importance set and the candidate read from the dict are those of the specification |
| CssShorthand.FourSideCandidates | tools/css_shorthand_candidates.py:48-67 | the function as the source computes it returns the specified candidates |
| CssShorthand.SideCands | tools/css_shorthand_candidates.py:81-82 | at most one candidate per base, and only for padding and margin |
| CssShorthand.Tag | tools/css_shorthand_candidates.py:83-89 | each candidate labelled with the rule's context and selector, in order |
| CssShorthand.TagAppend | tools/css_shorthand_candidates.py:81-89 | labelling distributes over concatenation |
| CssShorthand.AppendTagged | tools/css_shorthand_candidates.py:82-89 | the append loop adds the labelled candidates in order |
| CssShorthand.BlockCandidates | tools/css_shorthand_candidates.py:76-89 | the loop body for one rule adds the padding candidate, then the margin one, and nothing for an empty selector or no declarations |
| CssShorthand.AddBlock | tools/css_shorthand_candidates.py:75-89 | one turn of the main loop appends the candidates of one rule |
| CssShorthand.Run | tools/css_shorthand_candidates.py:70-95 | the report counts the candidates of all walked rules and lists them in order |
| CssShorthand.BlockFoundShape | tools/css_shorthand_candidates.py:76-89 | at most two candidates per rule, each padding or margin, for a non-empty selector, in the rule's context |
| CssShorthand.ReportShape | tools/css_shorthand_candidates.py:74-94 | every reported candidate is a padding or margin shorthand for a non-empty selector |
| CssAdjacent.FpList | tools/css_adjacent_merge_candidates.py:36-39 | one fingerprint element per declaration, in order |
| CssAdjacent.FingerprintOfDeclarations | tools/css_adjacent_merge_candidates.py:30-40 | the fingerprint keeps the declarations in order with their lower-cased names, stripped values and importance; a rule without content has the empty fingerprint |
| CssAdjacent.FingerprintSkipsOther | tools/css_adjacent_merge_candidates.py:36-38 | items that are not declarations do not change the fingerprint |
| CssAdjacent.DeclFingerprint | tools/css_adjacent_merge_candidates.py:30-40 | the loop computes the fingerprint |
| CssAdjacent.FingerprintTurn | tools/css_adjacent_merge_candidates.py:36-39 | one turn of that loop appends the element of a declaration and nothing otherwise |
| CssAdjacent.FpListAppend | tools/css_adjacent_merge_candidates.py:35-39 | fingerprints distribute over concatenation |
| CssAdjacent.FingerprintStep | tools/css_adjacent_merge_candidates.py:36-39 | the fingerprint of a longer prefix adds at most the element of the new item |
| CssAdjacent.FlatIff | tools/css_adjacent_merge_candidates.py:47-62 | an entry is in the flat list exactly when it comes from a walked rule with a non-empty selector and a non-empty fingerprint |
| CssAdjacent.FlatOrder | tools/css_adjacent_merge_candidates.py:48-62 | the flat list keeps the order of the walk |
| CssAdjacent.BuildFlat | tools/css_adjacent_merge_candidates.py:47-62 | the loop builds the flat list |
| CssAdjacent.AddFlat | tools/css_adjacent_merge_candidates.py:48-62 | one turn of that loop appends the entry of one kept rule |
| CssAdjacent.FlatStep | tools/css_adjacent_merge_candidates.py:49-62 | an empty selector or an empty fingerprint skips the rule |
| CssAdjacent.Pairs | tools/css_adjacent_merge_candidates.py:64-76 | no more candidates than pairs examined |
| CssAdjacent.PairsIff | tools/css_adjacent_merge_candidates.py:64-76 | a candidate is reported exactly when it is the pair of two consecutive flat entries with equal context and equal fingerprint |
| CssAdjacent.PairsShape | tools/css_adjacent_merge_candidates.py:64-76 | at most one candidate fewer than flat entries; each lists two selectors and two lines, the earlier rule first, in the later rule's context |
| CssAdjacent.FindPairs | tools/css_adjacent_merge_candidates.py:64-76 | the pairing loop computes those candidates |
| CssAdjacent.Run | tools/css_adjacent_merge_candidates.py:43-82 | the count is the length of the candidate list of the stylesheet |
| CssAdjacent.TwoIdenticalRules | tools/css_adjacent_merge_candidates.py:43-82 | two top-level rules in a row with the same declarations and non-empty selectors give exactly one candidate |
| CssAdjacent.WalkTwo | tools/css_adjacent_merge_candidates.py:12-23 | two top-level rules are walked in order in the empty context |
| CssAdjacent.TwoEntries | tools/css_adjacent_merge_candidates.py:64-76 | two flat entries with equal context and fingerprint give one candidate |
| CssAudit.InventorySpec | tools/css_audit.py:185-199 | an inventory entry exists exactly for each walked rule whose normalised selector is not empty; that selector is stripped and single-spaced |
| CssAudit.BuildInventory | tools/css_audit.py:185-199 | the loop builds the inventory |
| CssAudit.AddInventory | tools/css_audit.py:187-199 | one turn of that loop appends the entry of one rule with a selector |
| CssAudit.InventoryStep | tools/css_audit.py:188-199 | a rule whose normalised selector is empty is skipped |
| CssAudit.RuleDomHits | tools/css_audit.py:119-140 | whether some selector of the prelude, stripped of interactive pseudo-classes, hits the snapshot; a prelude that does not parse gives no hit and an error |
| CssAudit.StatefulSelectorUsed | tools/css_audit.py:131-137 | `a:hover` and `a:not(:hover)` hit wherever `a` does |
| CssAudit.Unused | tools/css_audit.py:216-223 | no more unused rules than rules examined |
| CssAudit.ParseErrors | tools/css_audit.py:207-215 | no more parse errors than rules examined |
| CssAudit.UnusedIff | tools/css_audit.py:205-223 | a rule is reported unused exactly when none of its selectors hits; a rule whose prelude does not parse is always among them |
| CssAudit.ParseErrorsIff | tools/css_audit.py:205-215 | a rule is listed under parse errors exactly when its prelude does not parse |
| CssAudit.DomReport | tools/css_audit.py:202-223 | the DOM loop computes both lists |
| CssAudit.Members | tools/css_audit.py:226-229 | the rules collected under a key all have that key |
| CssAudit.MembersSnoc | tools/css_audit.py:227-229 | a further rule joins the list of its own key only |
| CssAudit.MembersEmpty | tools/css_audit.py:226-229 | a key no rule has collects nothing |
| CssAudit.FindGroup | tools/css_audit.py:229 | the dict lookup finds the group with the key or reports that none has it |
| CssAudit.AddRuleKeys | tools/css_audit.py:229 | `setdefault` keeps the earlier keys in their insertion order and leaves a group for the rule's key |
| CssAudit.FindGroupKept | tools/css_audit.py:229 | a key once present stays present |
| CssAudit.AddRuleDistinct | tools/css_audit.py:229 | keys stay distinct |
| CssAudit.AddRuleCovers | tools/css_audit.py:227-229 | every rule seen so far has the group of its key |
| CssAudit.NoGroupNoMembers | tools/css_audit.py:227-229 | a key without a group has no rules yet |
| CssAudit.AddRuleMembers | tools/css_audit.py:227-229 | each group holds exactly the rules of its key, in order |
| CssAudit.AddRuleGrouped | tools/css_audit.py:227-229 | one step of the grouping loop keeps the grouping invariant |
| CssAudit.GroupsGrouped | tools/css_audit.py:225-229 | `by_selector` has one group per key, in first-occurrence order, holding exactly that key's rules in source order |
| CssAudit.GroupRules | tools/css_audit.py:225-229 | the grouping loop computes `by_selector` |
| CssAudit.LineLeTotal | tools/css_audit.py:235 | ordering by source line is a total preorder |
| CssAudit.AtLine | tools/css_audit.py:239-249 | every declaration of a block carries the block's line |
| CssAudit.ConflictsIff | tools/css_audit.py:239-252 | a conflict is recorded exactly when a declaration's property was last seen with another (value, important) |
| CssAudit.FirstNeverConflicts | tools/css_audit.py:243 | the first declaration of a property never conflicts |
| CssAudit.ConflictStep | tools/css_audit.py:241-252 | one step of the `seen` loop records the conflict with the last value seen and then stores the new one |
| CssAudit.AtLineSnoc | tools/css_audit.py:240 | the declarations scanned grow by one per inner step |
| CssAudit.ScannedSnoc | tools/css_audit.py:240 | the same, after the blocks already scanned |
| CssAudit.FlattenSnoc | tools/css_audit.py:239-240 | each outer step adds one block's declarations |
| CssAudit.ScanConflicts | tools/css_audit.py:237-252 | the nested loops compute the conflicts of the blocks in order |
| CssAudit.ScanBlock | tools/css_audit.py:240-252 | the inner loop processes one block's declarations |
| CssAudit.ScanDecl | tools/css_audit.py:241-252 | the inner loop body processes one declaration |
| CssAudit.Lines | tools/css_audit.py:257 | the occurrences list the blocks' lines in order |
| CssAudit.BlockOfSpec | tools/css_audit.py:235-257 | a multi-block's occurrences are its group's lines in ascending order, with their multiplicities |
| CssAudit.LinesAppend | tools/css_audit.py:257 | lines distribute over concatenation |
| CssAudit.LinesInsert | tools/css_audit.py:235 | inserting a block adds its line to the multiset of lines |
| CssAudit.LinesSnoc | tools/css_audit.py:257 | the lines of a non-empty list are those of its prefix and its last block |
| CssAudit.LinesSort | tools/css_audit.py:235 | sorting the blocks by line keeps their lines |
| CssAudit.MultiBlocksSpec | tools/css_audit.py:231-260 | every multi-block is a key with more than one block and lists all the blocks of that key |
| CssAudit.MultiBlocksComplete | tools/css_audit.py:231-260 | conversely, every key with more than one block has its multi-block, which lists all the blocks of that key |
| CssAudit.MultiBlocksKeyUnique | tools/css_audit.py:231-260 | a key has at most one multi-block |
| CssAudit.MembersWitness | tools/css_audit.py:226-229 | a key with a block has a rule with that key |
| CssAudit.MultiCount | tools/css_audit.py:269 | the count is at most the number of entries counted |
| CssAudit.MultiCountAll | tools/css_audit.py:269 | when every entry has more than one occurrence, all are counted |
| CssAudit.MultiCountIsLength | tools/css_audit.py:269 | the multi-block count is the number of multi-blocks |
| CssAudit.CountMulti | tools/css_audit.py:269 | the counting expression |
| CssAudit.BuildMultiBlocks | tools/css_audit.py:231-260 | the multi-block loop keeps exactly the groups with several blocks |
| CssAudit.AddMultiBlock | tools/css_audit.py:232-260 | one turn of that loop |
| CssAudit.ReportLeTotal | tools/css_audit.py:273 | more occurrences first, then by selector, is a total preorder |
| CssAudit.ListedSpec | tools/css_audit.py:273 | at most 400 entries, each a multi-block, sorted by that order; all of them when there are at most 400 |
| CssAudit.Run | tools/css_audit.py:180-274 | the report of the walked stylesheet: totals, unused rules, parse errors, the multi-block count and the listed multi-blocks |
| CssSelectors.StripNoInteractive | tools/css_audit.py:48-86 | after stripping, no compound selector, including those inside `:not(...)`, holds an interactive pseudo-class |
| CssSelectors.StripSimplesNoInteractive | tools/css_audit.py:61-83 | the simple selectors kept hold no interactive pseudo-class |
| CssSelectors.StripSimpleNoInteractive | tools/css_audit.py:63-82 | what one simple selector leaves holds no interactive pseudo-class |
| CssSelectors.StripArgsNoInteractive | tools/css_audit.py:70-76 | the `:not(...)` arguments kept hold no interactive pseudo-class |
| CssSelectors.StripSimplesAppend | tools/css_audit.py:62-83 | the compound loop treats each simple selector on its own |
| CssSelectors.StripArgsAppend | tools/css_audit.py:71-76 | the negation loop treats each argument on its own |
| CssSelectors.StripIdempotent | tools/css_audit.py:48-86 | stripping twice is stripping once |
| CssSelectors.StripSimplesIdempotent | tools/css_audit.py:61-83 | the same for a compound selector's list |
| CssSelectors.StripSimpleIdempotent | tools/css_audit.py:63-82 | the same for one simple selector |
| CssSelectors.StripArgsIdempotent | tools/css_audit.py:70-76 | the same for the arguments of `:not(...)` |
| CssSelectors.StripKeepsCombinators | tools/css_audit.py:54-59 | stripping keeps every combinator in order and keeps combined and compound nodes what they were |
| CssSelectors.StripPlainCompound | tools/css_audit.py:61-83 | in a compound selector without `:not(...)`, stripping keeps exactly the simple selectors that are not interactive pseudo-classes, in order |
| CssSelectors.StripArgsEmpty | tools/css_audit.py:70-78 | a `:not(...)` is dropped exactly when every argument strips to blank text |
| CssSelectors.AllBlankCons | tools/css_audit.py:71-76 | blankness of the arguments, one argument at a time |
| CssSelectors.StripArgsMembers | tools/css_audit.py:70-76 | the arguments kept are exactly the stripped arguments whose text is not blank |
| CssSelectors.InteractiveAloneDropped | tools/css_audit.py:64-65 | an interactive pseudo-class alone strips to nothing, in a compound selector and inside `:not(...)` |
| CssSelectors.PlainKept | tools/css_audit.py:82 | any other simple selector is kept |
| CssSelectors.NotInteractiveDropped | tools/css_audit.py:61-83 | `a:not(:hover)` and `a:hover` are both matched as `a`, for every interactive pseudo-class |
| CssSelectors.CollapseEnds | tools/css_audit.py:89-94 | collapsing keeps a non-space first and last character and maps only the empty string to the empty string |
| CssSelectors.CollapseSingleSpaced | tools/css_audit.py:89-94 | after collapsing there is no run of whitespace and only single spaces |
| CssSelectors.CollapseOfSingleSpaced | tools/css_audit.py:89-94 | collapsing single-spaced text changes nothing |
| CssSelectors.CollapseSpaceHead | tools/css_audit.py:89-94 | a space in front of collapsed text keeps it collapsed |
| CssSelectors.SingleSpacedTail | tools/css_audit.py:89-94 | single spacing holds for every suffix |
| CssSelectors.SqueezeAppend | tools/css_audit.py:92-94 | the non-whitespace characters of a concatenation |
| CssSelectors.SqueezeTrimLeft | tools/css_audit.py:94 | stripping on the left changes no non-whitespace character |
| CssSelectors.SqueezeTrimRight | tools/css_audit.py:94 | stripping on the right changes no non-whitespace character |
| CssSelectors.SqueezeCollapse | tools/css_audit.py:94 | collapsing changes no non-whitespace character |
| CssSelectors.NormalizeSelectorTextSpec | tools/css_audit.py:92-94 | the normalised text has no whitespace at its ends and single spaces only, keeps every other character in order, is idempotent, and is empty exactly when the stripped text is |
| CompactCss.DeclTexts | tools/compact_css.py:47-54 | one text per declaration, in order |
| CompactCss.SerializeDecls | tools/compact_css.py:44-54 | the declaration loop gives the texts of the declarations, other items dropped |
| CompactCss.SerializeDecl | tools/compact_css.py:48-54 | one turn of that loop |
| CompactCss.DeclTextsSnoc | tools/compact_css.py:54 | a declaration appends its text |
| CompactCss.Compact | tools/compact_css.py:58-61 | the output ends in one newline after the serialised rule list |
| CompactCss.ConcatOfAppend | tools/compact_css.py:56 | joining distributes over concatenation |
| CompactCss.RuleListIsConcatOf | tools/compact_css.py:18-56 | the rule list's text is the rules' texts joined |
| CompactCss.RuleListAppend | tools/compact_css.py:18-56 | the text of a rule list is the texts of its parts in order, so no rule moves |
| CompactCss.RuleListIsConcat | tools/compact_css.py:18-56 | each rule's text sits in the output between the texts of the rules before and after it |
| CompactCss.DroppedRules | tools/compact_css.py:40-43 | a qualified rule without content, and anything that is not a rule, leave no trace |
| CompactCss.SkipsOtherItems | tools/compact_css.py:48-50 | items that are not declarations do not change a rule's text |
| CompactCss.DeclarationsReadBack | tools/compact_css.py:55 | the text between a rule's braces splits on `;` into exactly its declaration texts when no name or value holds `;` |
| CompactCss.DeclTextReadBack | tools/compact_css.py:51-54 | a declaration text splits at its first `:` into the name and the value with its `!important` marker |
| CompactCss.CloseAppend | tools/compact_css.py:36-55 | brace depth composes over concatenation |
| CompactCss.CloseNoBraces | tools/compact_css.py:26-28 | text without braces leaves the depth unchanged |
| CompactCss.CloseShift | tools/compact_css.py:36-38 | depth counting is shift-invariant for text that returns to its depth |
| CompactCss.CloseShiftAny | tools/compact_css.py:36-38 | depth counting is shift-invariant |
| CompactCss.BalancedAppend | tools/compact_css.py:56 | balanced texts concatenate to a balanced text |
| CompactCss.BalancedWrap | tools/compact_css.py:36-55 | a brace-free prefix with a balanced text in braces is balanced |
| CompactCss.BraceFreeAppend | tools/compact_css.py:54 | brace-free texts concatenate to a brace-free text |
| CompactCss.TrimBraceFree | tools/compact_css.py:41-52 | stripping keeps a text brace-free |
| CompactCss.DeclsBraceFree | tools/compact_css.py:47-55 | the declaration part is brace-free when names and values are |
| CompactCss.DeclListBraceFree | tools/compact_css.py:48-54 | each declaration text is brace-free when names and values are |
| CompactCss.JoinBraceFree | tools/compact_css.py:55 | joining brace-free parts with `;` is brace-free |
| CompactCss.RuleBalanced | tools/compact_css.py:20-55 | nesting is kept: with no brace in any keyword, prelude, name or value, every brace a rule's text holds is one the serialiser wrote, and they pair up |
| CompactCss.ListBalanced | tools/compact_css.py:18-56 | the same for a rule list |
| CompactCss.CompactBalanced | tools/compact_css.py:8-61 | the compact stylesheet is balanced |
| HeaderScan.CommentOrBlankIff | tools/css_selector_header_scan.py:15-17 | the test comes down to: blank, or starting with `*` or `/*`, so a line such as `* {` counts as a comment |
| HeaderScan.CommentStartIff | tools/css_selector_header_scan.py:17 | the four-way `startswith` test reduces to those three cases |
| HeaderScan.NoTabAfterReplace | tools/css_selector_header_scan.py:30 | replacing tabs leaves no tab and keeps the length |
| HeaderScan.PreviewSpec | tools/css_selector_header_scan.py:30 | the preview is at most 240 characters long and holds no tab |
| HeaderScan.Scan | tools/css_selector_header_scan.py:19-33 | the loop over the lines computes the specified headers |
| HeaderScan.ScanLine | tools/css_selector_header_scan.py:20-33 | one turn of that loop |
| HeaderScan.AppendHeader | tools/css_selector_header_scan.py:31 | appending a well-formed header after the ones before it keeps them well formed and ordered |
| HeaderScan.AppendOrdered | tools/css_selector_header_scan.py:31 | headers stay in file order and do not overlap |
| HeaderScan.OpenStep | tools/css_selector_header_scan.py:20-24 | a line that is not a comment or blank and has no `{` opens a pending header |
| HeaderScan.ExtendStep | tools/css_selector_header_scan.py:25-26 | a line without `{` extends the pending header |
| HeaderScan.NewHeader | tools/css_selector_header_scan.py:28-31 | the header recorded at a line with `{` spans from its start to that line, and its count is the number of lines spanned |
| HeaderScan.AllEndBefore | tools/css_selector_header_scan.py:19-33 | every header recorded ends before the current line |
| HeaderScan.CloseStep | tools/css_selector_header_scan.py:28-33 | a line holding `{` closes the pending header and resets the state |
| HeaderScan.StepInv | tools/css_selector_header_scan.py:19-33 | each line keeps the scan invariant |
| HeaderScan.ScanInv | tools/css_selector_header_scan.py:19-33 | the invariant holds after every prefix of the file |
| HeaderScan.ScanSpec | tools/css_selector_header_scan.py:19-33 | every recorded header is well formed, they come in file order, and a header still open at the end of the file is not recorded |
| HeaderScan.PartialHeaderDropped | tools/css_selector_header_scan.py:19-33 | a last header without `{` is dropped: a single line `a,` gives no header |
| HeaderScan.OneLineHeader | tools/css_selector_header_scan.py:19-33 | a one-line rule header gives a header of one line |
| HeaderScan.HeaderGeTotal | tools/css_selector_header_scan.py:35 | the reverse tuple order is a total preorder |
| HeaderScan.SortedHeaders | tools/css_selector_header_scan.py:35 | after sorting the headers come longest first and none is lost |
| HeaderScan.LongRun | tools/css_selector_header_scan.py:40-43 | the leading headers with at least eight lines, up to the first shorter one |
| HeaderScan.ShownSpec | tools/css_selector_header_scan.py:39-46 | at most 25 headers are printed, all of at least eight lines, in sorted order; printing stops at the 25th or before the first shorter header |
| HeaderScan.ShownComplete | tools/css_selector_header_scan.py:40-43 | on the sorted list no header of eight lines or more is skipped before the stop |
| HeaderScan.Report | tools/css_selector_header_scan.py:39-46 | the reporting loop prints those headers |
| HeaderScan.ReportEnd | tools/css_selector_header_scan.py:39-46 | where the reporting loop stops it has printed exactly those headers |
| HeaderScan.LongRunPrefix | tools/css_selector_header_scan.py:40-43 | a prefix of long headers lies inside the long run |
| HeaderScan.ReportedSound | tools/css_selector_header_scan.py:8-46 | every printed header is a well-formed header of the file with at least eight lines |
| HeaderScan.ScannedWellFormed | tools/css_selector_header_scan.py:19-33 | every scanned header is well formed |
| HeaderScan.ShownFrom | tools/css_selector_header_scan.py:35-46 | a printed header is one of the scanned headers, of at least eight lines |
| HeaderScan.ReportedComplete | tools/css_selector_header_scan.py:8-46 | while fewer than 25 headers are printed, every header of eight lines or more is printed |
| HeaderScan.Run | tools/css_selector_header_scan.py:8-46 | `main` without the I/O prints the sorted scanned headers that qualify |
| Strings.Trim | scripts/refactor_roam_css.py:19 | `strip()` leaves no whitespace at either end and never lengthens the text |
| Strings.TrimLeft | scripts/refactor_roam_css.py:19 | `lstrip()` keeps a suffix that starts with a non-space |
| Strings.TrimRight | scripts/refactor_roam_css.py:19 | `rstrip()` keeps a prefix that ends with a non-space |
| Strings.TrimLeftDropsSpaces | scripts/refactor_roam_css.py:19 | what `lstrip` removes is whitespace |
| Strings.TrimRightDropsSpaces | scripts/refactor_roam_css.py:19 | what `rstrip` removes is whitespace |
| Strings.TrimChars | scripts/refactor_roam_css.py:19 | `strip` only removes characters |
| Strings.TrimOfTrimmed | scripts/refactor_roam_css.py:60 | text with no whitespace at its ends is its own strip |
| Strings.TrimIdempotent | scripts/refactor_roam_css.py:60 | stripping twice is stripping once |
| Strings.TrimEmptyIff | scripts/refactor_roam_css.py:60-62 | the stripped text is empty exactly when the text is all whitespace |
| Strings.TrimSpaces | scripts/refactor_roam_css.py:60 | `strip` removes exactly the whitespace around text without whitespace at its ends |
| Strings.TrimLower | scripts/refactor_roam_css.py:19 | lowering commutes with `strip` |
| Strings.Lower | scripts/refactor_roam_css.py:19 | `lower()` maps each character on its own, ASCII letters to lower case |
| Strings.LowerIdempotent | scripts/refactor_roam_css.py:19 | lowering twice is lowering once |
| Strings.FindChar | scripts/refactor_roam_css.py:59 | the first position of a character, or -1 exactly when it does not occur |
| Strings.RFindChar | scripts/refactor_roam_css.py:124 | the last position of a character, or -1 exactly when it does not occur |
| Strings.FindSub | scripts/refactor_roam_css.py:111-112 | the first position of a pattern, or -1 exactly when it does not occur |
| Strings.Split | scripts/refactor_roam_css.py:59 | `split(c)` gives at least one piece and no piece holds `c` |
| Strings.JoinSplit | scripts/refactor_roam_css.py:118-141 | joining the pieces of a split with the separator gives the text back |
| Strings.SplitJoin | scripts/refactor_roam_css.py:59-69 | splitting a join of `c`-free pieces gives the pieces back |
| Strings.JoinShift | scripts/refactor_roam_css.py:69 | joining with a separator followed by text is joining with the separator after prefixing each later piece |
| Strings.PartitionFirst | scripts/refactor_roam_css.py:49 | `partition(c)`: the text before the first `c` and the text after it |
| Strings.PartitionFirstAt | scripts/refactor_roam_css.py:64 | the partition of `a + c + b` when `a` has no `c` is `(a, b)` |
| Strings.PartitionLast | scripts/refactor_roam_css.py:124 | `rpartition(c)`: the text before the last `c` and the text after it |
| Strings.StripChar | scripts/refactor_roam_css.py:50 | `strip(",")` leaves no comma at either end and only removes characters |
| Strings.Replace | tools/css_selector_header_scan.py:30 | with no occurrence of the pattern the text is unchanged |
| Strings.ReplaceFirst | scripts/refactor_roam_css.py:112 | `replace(pat, repl, 1)` changes nothing without an occurrence, and replaces a leading one by `repl`, the case the caller's `startswith` guarantees |
| Strings.ReplaceFirstAtFirst | scripts/refactor_roam_css.py:112 | in general only the first occurrence, wherever it is, is replaced, and the text around it is kept |
| Strings.ReplaceFirstAt | scripts/refactor_roam_css.py:112 | the same for an occurrence at a given index with none before it |
| Strings.ReplaceSame | scripts/refactor_roam_css.py:138 | replacing a pattern by itself changes nothing |
| Strings.Take | tools/css_selector_header_scan.py:30 | `s[:n]` is the prefix of length at most `n`, the whole text when it is shorter |
| Strings.StrLeTotal | tools/css_shorthand_candidates.py:64 | string comparison is total |
| Strings.StrLeTrans | tools/css_shorthand_candidates.py:64 | string comparison is transitive |
| Strings.StrLeAntisym | tools/css_shorthand_candidates.py:64 | string comparison is antisymmetric |
| OrderedDict.IndexOf | scripts/refactor_roam_css.py:65 | the first position of a key |
| OrderedDict.IndexOfUnique | scripts/refactor_roam_css.py:65 | in a dict the position of a key is unique |
| OrderedDict.Put | scripts/refactor_roam_css.py:65 | `d[k] = v`: an existing key keeps its place and a new key goes last; `k` then maps to `v`, every other key keeps its value, and keys stay unique |
| OrderedDict.PutKeys | scripts/refactor_roam_css.py:106 | after `d[k] = v` the keys are the old ones and `k` |
| OrderedDict.PutTwice | scripts/refactor_roam_css.py:105-107 | `d[k] = v; d[k] = w` is `d[k] = w` |
| OrderedDict.Update | scripts/refactor_roam_css.py:107 | `update`: the keys of both dicts; the second dict's values win; keys stay unique |
| OrderedDict.UpdateEmpty | scripts/refactor_roam_css.py:114-115 | updating an empty dict with a dict rebuilds that dict |
| OrderedDict.PutAll | scripts/refactor_roam_css.py:58-66 | putting entries one by one gives a dict with unique keys |
| OrderedDict.PutAllKeys | scripts/refactor_roam_css.py:58-66 | its keys are exactly the keys put |
| OrderedDict.PutAllLastWins | scripts/refactor_roam_css.py:58-66 | each key holds the value of its last put |
| OrderedDict.PutAllOfDict | scripts/refactor_roam_css.py:78 | putting the entries of a dict one by one rebuilds that dict, order included |
| OrderedDict.Collect | scripts/refactor_roam_css.py:59-65 | the entries a loop yields, in order |
| OrderedDict.CollectSnoc | scripts/refactor_roam_css.py:59-65 | one more item adds its entry, if any |
| OrderedDict.PutEach | scripts/refactor_roam_css.py:58-66 | the loop that fills a dict from the items puts the entries they yield, in order |
| OrderedDict.PutOne | scripts/refactor_roam_css.py:59-65 | one turn of that loop |
| OrderedDict.CollectKeys | scripts/refactor_roam_css.py:59-65 | a key is collected exactly when some item yields an entry for it |
| OrderedDict.CollectAllSome | scripts/refactor_roam_css.py:59-65 | when every item yields an entry, those entries are collected in order |
| OrderedDict.Without | scripts/refactor_roam_css.py:73 | the dict comprehension never adds entries |
| OrderedDict.WithoutSpec | scripts/refactor_roam_css.py:73 | the filtered dict holds exactly the keys not dropped, each with its value |
| OrderedDict.WithoutUnique | scripts/refactor_roam_css.py:73 | filtering keeps keys unique |
| OrderedDict.WithoutKeepsAll | scripts/refactor_roam_css.py:73 | filtering keeps every property of the entries, and no key left is one that is dropped |
| OrderedDict.PutKeepsAll | scripts/refactor_roam_css.py:65 | a property of all entries survives a put of an entry that has it |
| OrderedDict.PutAllKeepsAll | scripts/refactor_roam_css.py:58-66 | the same for a whole loop of puts |
| OrderedDict.UpdateKeepsAll | scripts/refactor_roam_css.py:107 | the same for `update` |
| OrderedDict.CollectKeepsAll | scripts/refactor_roam_css.py:59-65 | every collected entry has a property all yielded entries have |
| Lists.FilterMap | tools/css_audit.py:186-199 | a filtered list comprehension never has more elements than its input |
| Lists.FilterMapIff | tools/css_audit.py:186-199 | an element is in the result exactly when it is the image of a kept element |
| Lists.FilterMapOrder | tools/css_audit.py:186-199 | the result keeps the input's order |
| Lists.FilterMapTwo | tools/css_adjacent_merge_candidates.py:47-62 | two kept elements give their two images |
| Lists.AccumulateIff | tools/css_audit.py:239-252 | a value is accumulated exactly when some element adds it |
| Sorting.Insert | tools/css_audit.py:235 | inserting adds exactly one element |
| Sorting.InsertSorted | tools/css_audit.py:235 | inserting into a sorted list keeps it sorted |
| Sorting.Sort | tools/css_audit.py:235 | sorting is a permutation |
| Sorting.SortSorted | tools/css_audit.py:235 | the result of sorting is sorted, for a total preorder |
| Sorting.SortOfSorted | tools/css_audit.py:235 | a list already in order comes back unchanged |
| Sorting.InsertAtEnd | tools/css_audit.py:235 | an element not smaller than all goes last |
| CssAst.WalkQualifiedHead | tools/css_redundancy.py:22-23 | a leading qualified rule is yielded first, in the empty context |
| CssAst.WalkSingle | tools/css_redundancy.py:14-23 | walking a one-rule list is walking that rule |
| CssRedundancy.SamePropsFrom | tools/css_redundancy.py:64-82 | every same-property report is made for a declaration that repeats the previous one of its property |
| CssRedundancy.SamePropsTo | tools/css_redundancy.py:64-82 | every such declaration is reported |
| CssRedundancy.ShapeWellNamed | tools/css_redundancy.py:57-61 | reports of one block carry its stripped context and its non-empty selector |
| CssRedundancy.GatherWellNamed | tools/css_redundancy.py:57-112 | the reports of all blocks carry a stripped context and a non-empty selector |
| CssRedundancy.ConcatWellNamed | tools/css_redundancy.py:57-112 | that property survives appending the reports of a further block |
| CssShorthand.AllFoundShape | tools/css_shorthand_candidates.py:74-89 | the candidates of all rules are padding or margin shorthands for non-empty selectors |
| CssShorthand.TagSnoc | tools/css_shorthand_candidates.py:83-89 | one more candidate adds its labelled entry |
| TagSpans.ApplyAt | JS/Tag-HideHash.js:19-23 | patching spans in place keeps their number |
| TagSpans.ApplyAtSnoc | JS/Tag-HideHash.js:19-23 | one more target patches the span at that index |
| TagSpans.NodesInRange | JS/Tag-HideHash.js:37-43 | the targets of all added nodes lie within the page's spans |
| SmileyCheckbox.ReachedBelow | Roam.js:184-190 | a node reached by a path of children that has the class is the node itself or one of its descendants |
| SmileyCheckbox.FindBelow | Roam.js:184-190 | a node with the class below gives a path of children to it |
| RefactorCss.TrimNormalised | scripts/refactor_roam_css.py:19 | surrounding whitespace never changes the colour-or-font verdict |
| RefactorCss.LowerNormalised | scripts/refactor_roam_css.py:19 | letter case never changes the colour-or-font verdict |
| RefactorCss.MatchesAtIff | scripts/refactor_roam_css.py:30 | the index-based match of a word at a position is exactly slice equality |
| RefactorCss.RemoveCommentsStep | scripts/refactor_roam_css.py:40-42 | outside a comment opening, a character is kept |
| RefactorCss.NormalizeOfStripped | scripts/refactor_roam_css.py:27-28 | a selector with no whitespace at its ends is not changed by the leading `strip` |
| RefactorCss.PartEntryOfStripped | scripts/refactor_roam_css.py:60-65 | a part whose stripped text is `k:w` declares `k` with the stripped `w` |
| RefactorCss.WellFormedSnoc | scripts/refactor_roam_css.py:44-53 | every parsed rule is well formed: a non-empty selector without commas at its ends |
| RefactorCss.ExtractLayoutKeepsAll | scripts/refactor_roam_css.py:71-73 | the layout dict keeps the properties of the entries and holds only layout entries |
| RefactorCss.SystemMapKeysFrom | scripts/refactor_roam_css.py:99-107 | every key of the system map is the normalised selector of a rule with layout declarations |
| RefactorCss.SystemMapKeysTo | scripts/refactor_roam_css.py:99-107 | every such normalised selector is a key of the system map |
| RefactorCss.AliasedSnoc | scripts/refactor_roam_css.py:110-115 | the alias loop, one snapshot key at a time |
| RefactorCss.AliasStepValid | scripts/refactor_roam_css.py:111-115 | one alias step keeps every value a well-formed layout-only dict |
| RefactorCss.AliasedKeysFrom | scripts/refactor_roam_css.py:110-115 | every new key of the aliased map is the alias of a snapshot key with the prefix |
| RefactorCss.AliasedKeysTo | scripts/refactor_roam_css.py:110-115 | every such alias is a key of the aliased map |
| RefactorCss.RuleTextShape | scripts/refactor_roam_css.py:138 | a rewritten rule starts with its header and `{` and ends in a newline |

## Left out

- DOM plumbing is not modelled as a DOM: `querySelectorAll`, `closest`, `insertAdjacentElement`, `createElement` and the button's markup and aria label. The scripts' state becomes class fields, and the spans a query returns become index lists passed in.
- Event-listener and `MutationObserver` registration are left out. The callbacks themselves are modelled as methods that take the batch of mutation records.
- Timing is not modelled: `requestAnimationFrame`, `setTimeout`, `setInterval` and `readyState`/`DOMContentLoaded`. Only the `pending` flag and the attempt counter are kept. The interval of `tryCreateToggle` becomes a bounded sequence of ticks, and a parameter says from which tick on the top bar exists.
- The 500 ms and 1500 ms fallback passes of the smiley script (Roam.js:213-214) are left out. Each is one more call of the pass, which `InjectIdempotent` covers.
- `localStorage` and `matchMedia` are inputs: an optional string and an optional boolean, none when the call throws. A failed write leaves the stored value as it was.
- The ink-pulse geometry and the Web Animations call in JS/Tag.js:37-59 are left out: floating-point pixel arithmetic on a browser animation API. Only the once-only listener guard is modelled.
- Sidebar-Hide.js is not part of this model. It consists of timer choreography around one class.
- tinycss2, cssselect2 and lxml are not modelled. Their output is given as the `CssAst` and `CssSelectors` datatypes: rule and declaration lists, selector trees, and serialised preludes and values as strings.
- CssAudit.RuleDomHits: selector parsing and DOM matching are parameters (`parse`, `hasHit`). Line 134 rebuilds every selector with `pseudo_element=None`, so the test against pseudo-elements at tools/css_audit.py:111-112 never fires and `a::before` is matched as `a`; the `Selector` datatype carries no pseudo-element for that reason. The `strip_or_match_error` branch (tools/css_audit.py:138-139) reports exceptions from cssselect2 and is not modelled.
- CssSelectors.Text: `str()` of a cssselect2 selector is modelled as the concatenation of its parts. cssselect2's exact spelling of combinators and arguments is left out. Only its blankness matters to the stripping.
- `source_line` is a natural number throughout. The `None` that `getattr(d, "source_line", None)` can give is not modelled.
- File reads and writes, argparse, JSON output, and printing to stdout and stderr are left out of every Python tool. The line counts that compact_css.py prints to stderr are left out too. Each `Run` returns the report that would be written.
- Python's regular expressions are not re-verified.
  - `re.sub(r"/\*.*?\*/", "", ...)` is modelled as the removal of each comment, from an opening `/*` to the first `*/` after it.
  - `re.split(r"\}\s*")` followed by `strip()` is modelled as splitting on `}` and stripping the pieces.
  - The prefixes `^\.roam-body\s+\.roam-app\s+` and `^\.roam-app\s+` are modelled by counting the characters they match.
  - `\s+` in tools/css_audit.py:89 is modelled by `Collapse`.
- Whitespace is space, tab, newline, carriage return, vertical tab and form feed. Python's `strip()` and `\s` also treat the separators `\x1c`-`\x1f` and Unicode whitespace as blank; those are left out. `lower()` lowers ASCII letters only; Unicode case mapping is left out.
- HeaderScan.Run takes the file as a sequence of lines. `splitlines()` at tools/css_selector_header_scan.py:9 also breaks lines at `\v`, `\f`, `\x1c`-`\x1e`, `\x85`, `\u2028` and `\u2029`, not just at line feeds and carriage returns; the splitting itself is not modelled.
- Sorting.Sort: `sorted` and `list.sort` are modelled as a stable insertion sort over sequences. The in-place update of `list.sort` is not modelled. Stability itself is not stated as a lemma. Only ordering, permutation and "an ordered input comes back unchanged" are proved.
- CssAudit.ListedSpec: when there are more than 400 multi-blocks, the lemma does not state that the 400 listed are the first 400 of the full sorted order. It states only that they are sorted multi-blocks of the input.
- HeaderScan.SortedHeaders: states that the sorted headers are a permutation ordered by line count. It does not state the tie-breaks on start line, end line and preview that the reversed tuple comparison applies.
- TagInk: the unused `stripHash` of JS/Tag.js is modelled only by `StripUncheckedVersusStripHash`, which compares it with the inline strip. Nothing calls it.

## Findings

| source | as written | input that shows it | evidently intended | confidence | as-written member | corrected member |
|---|---|---|---|---|---|---|
| scripts/refactor_roam_css.py:110-115 | the alias loop tests `k.startswith("roam-main ")`, without the leading dot, and strips that same prefix | a system rule `.roam-body .roam-app .roam-main .roam-article`, keyed `.roam-main .roam-article`: no key of the map can start with `roam-main `, so no `.roam-article` alias is made, and roam's `.roam-app .roam-article` finds no system layout | the prefix `.roam-main `, as the comment at line 109 describes, so that `.roam-article` receives the system layout | not executed | RefactorCss.AliasAsWrittenMissesArticle | RefactorCss.AliasCorrectedAddsArticle |

`RefactorCss.RefactorRoamCss` takes the prefix as a parameter: with `ALIAS_PREFIX_AS_WRITTEN` it is the script as written, whose alias loop adds nothing to a map of class-selector keys (`RefactorCss.AliasAsWrittenSkipsClassKeys`); with `ALIAS_PREFIX` it is the intended pass.
