/** The day/night theme controller: a stored preference that cycles
    auto -> light -> dark -> auto, a derived "dark" flag, the `rm-dark-theme`
    class on `body` and `html`, and a toggle button inserted once into the
    top bar, with a bounded number of insertion retries.

    The environment is part of the state: `storageOk` says whether
    localStorage works at all (when it does not, every read and write throws
    and is swallowed), `stored` is what `getItem` would return (None for
    null), and `ambient` is the `prefers-color-scheme: dark` media query
    (None when `matchMedia` throws). */
module ThemeToggle {
  import opened Wrappers

  const STORAGE_KEY: string := "roam-theme-mode"
  const THEME_CLASS: string := "rm-dark-theme"
  const BUTTON_ID: string := "roam-theme-toggle-btn"
  const CYCLE: seq<string> := ["auto", "light", "dark"]
  /** The interval retry gives up after this many attempts. */
  const MAX_ATTEMPTS: nat := 50
  const TITLE_SUFFIX: string := " · 点击切换"

  // ---------------------------------------------------------------------
  // Pure part: validation, cycle arithmetic, icon and tooltip.

  /** JavaScript's `CYCLE.indexOf(m)`: -1 when absent. */
  function CycleIndex(m: string): (i: int)
    ensures -1 <= i < |CYCLE|
    ensures i >= 0 ==> CYCLE[i] == m
    ensures i == -1 <==> m !in CYCLE
  {
    if m == CYCLE[0] then 0 else if m == CYCLE[1] then 1 else if m == CYCLE[2] then 2 else -1
  }

  /** `getStored`: `raw` is what localStorage returned, None when the entry
      is missing or the read threw. Only the three modes are accepted. */
  function GetStored(raw: Option<string>): (m: string)
    ensures m in CYCLE
    ensures m == (if raw.Some? && raw.value in CYCLE then raw.value else "auto")
  {
    match raw
    case Some(v) => if CycleIndex(v) >= 0 then v else "auto"
    case None => "auto"
  }

  /** Reading back a value that was read (and validated) before changes nothing. */
  lemma GetStoredStable(raw: Option<string>)
    ensures GetStored(Some(GetStored(raw))) == GetStored(raw)
  {
  }

  /** The mode written by `cycleMode`: the next entry of `CYCLE` after the stored one. */
  function NextMode(stored: string): (next: string)
    ensures next in CYCLE
  {
    CYCLE[(CycleIndex(stored) + 1) % |CYCLE|]
  }

  /** The three activations: auto -> light -> dark -> auto. */
  lemma NextModeSteps()
    ensures NextMode("auto") == "light"
    ensures NextMode("light") == "dark"
    ensures NextMode("dark") == "auto"
  {
  }

  /** The cycle never gets stuck, and it has period exactly 3 on valid modes. */
  lemma {:induction false} CyclePeriodThree(m: string)
    requires m in CYCLE
    ensures NextMode(m) != m
    ensures NextMode(NextMode(m)) != m
    ensures NextMode(NextMode(NextMode(m))) == m
  {
    NextModeSteps();
  }

  /** `cycleMode` composed with `getStored`: whatever is in storage, the
      result is a valid mode and two more steps do not return to it. */
  lemma {:induction false} CycleFromAnyStorage(raw: Option<string>)
    ensures var m := GetStored(raw);
      NextMode(m) in CYCLE && NextMode(NextMode(NextMode(m))) == m
  {
    CyclePeriodThree(GetStored(raw));
  }

  /** `getEffectiveDark`: fixed for "dark" and "light"; for "auto" the ambient
      preference, or false when the media query threw. */
  function EffectiveDark(raw: Option<string>, ambient: Option<bool>): (dark: bool)
  {
    var stored := GetStored(raw);
    if stored == "dark" then true
    else if stored == "light" then false
    else ambient.GetOr(false)
  }

  /** Only "auto" consults the ambient preference. */
  lemma EffectiveDarkDependsOnlyOnAuto(raw: Option<string>, a1: Option<bool>, a2: Option<bool>)
    ensures GetStored(raw) != "auto" ==> EffectiveDark(raw, a1) == EffectiveDark(raw, a2)
    ensures GetStored(raw) == "dark" ==> EffectiveDark(raw, a1)
    ensures GetStored(raw) == "light" ==> !EffectiveDark(raw, a1)
    ensures GetStored(raw) == "auto" ==> EffectiveDark(raw, a1) == (a1 == Some(true))
  {
  }

  /** `getIconName`: light is "flash", dark is "moon", anything else "repeat". */
  function IconName(stored: string): (icon: string)
    ensures icon in {"flash", "moon", "repeat"}
  {
    if stored == "light" then "flash" else if stored == "dark" then "moon" else "repeat"
  }

  /** The three modes show three different icons. */
  lemma IconNameDistinguishesModes(m1: string, m2: string)
    requires m1 in CYCLE && m2 in CYCLE && m1 != m2
    ensures IconName(m1) != IconName(m2)
  {
  }

  /** The class list written into the button's icon span. */
  function IconClass(stored: string): string {
    "bp3-icon bp3-icon-" + IconName(stored)
  }

  /** The mode part of the tooltip: `titles[stored] || titles.auto`. */
  function ModeTitle(stored: string, dark: bool): string {
    if stored == "light" then "日间模式"
    else if stored == "dark" then "夜间模式"
    else "跟随系统 (当前" + (if dark then "夜间" else "日间") + ")"
  }

  /** The whole tooltip: the mode title followed by " · 点击切换". */
  function Tooltip(stored: string, dark: bool): string {
    ModeTitle(stored, dark) + TITLE_SUFFIX
  }

  /** Every tooltip ends with the click hint, after a non-empty mode title. */
  lemma TooltipEndsWithSuffix(stored: string, dark: bool)
    ensures var t := Tooltip(stored, dark);
      |t| > |TITLE_SUFFIX| && t[|t| - |TITLE_SUFFIX|..] == TITLE_SUFFIX
  {
  }

  /** Only the "auto" tooltip mentions the effective theme, and there it
      tells the two apart. */
  lemma TooltipDependsOnDarkOnlyInAuto(stored: string)
    ensures stored != "light" && stored != "dark" <==> Tooltip(stored, true) != Tooltip(stored, false)
  {
    if stored != "light" && stored != "dark" {
      assert Tooltip(stored, true)[8] != Tooltip(stored, false)[8];
    }
  }

  // ---------------------------------------------------------------------
  // The page: body and html class lists, top bar, button, environment.

  class Page {
    var bodyClasses: set<string>
    var htmlClasses: set<string>
    var storageOk: bool
    var stored: Option<string>
    var ambient: Option<bool>
    var listening: bool
    var hasTopbar: bool
    /** How many elements carry the button id. */
    var buttons: nat
    var iconClass: string
    var title: string

    constructor (bodyClasses: set<string>, htmlClasses: set<string>, storageOk: bool,
                 stored: Option<string>, ambient: Option<bool>, hasTopbar: bool)
      ensures this.bodyClasses == bodyClasses && this.htmlClasses == htmlClasses
      ensures this.storageOk == storageOk && this.stored == stored && this.ambient == ambient
      ensures this.hasTopbar == hasTopbar && buttons == 0 && !listening
    {
      this.bodyClasses, this.htmlClasses := bodyClasses, htmlClasses;
      this.storageOk, this.stored, this.ambient := storageOk, stored, ambient;
      this.hasTopbar, buttons, listening := hasTopbar, 0, false;
      iconClass, title := "", "";
    }

    /** What `localStorage.getItem` yields, None if it throws. */
    function Raw(): Option<string>
      reads this
    {
      if storageOk then stored else None
    }

    function Mode(): (m: string)
      reads this
      ensures m in CYCLE
    {
      GetStored(Raw())
    }

    function Dark(): bool
      reads this
    {
      EffectiveDark(Raw(), ambient)
    }

    /** The theme classes agree with the effective theme. */
    predicate ThemeShown()
      reads this
    {
      (THEME_CLASS in bodyClasses <==> Dark()) && (THEME_CLASS in htmlClasses <==> Dark())
    }

    /** The button, when there is one, shows the current mode and theme. */
    predicate ButtonShown()
      reads this
    {
      buttons > 0 ==> iconClass == IconClass(Mode()) && title == Tooltip(Mode(), Dark())
    }

    /** `setStored`: a write that throws leaves storage as it was. */
    method SetStored(mode: string)
      modifies this`stored
      ensures stored == if storageOk then Some(mode) else old(stored)
    {
      if storageOk {
        stored := Some(mode);
      }
    }

    /** `setThemeClass`: adds or removes `rm-dark-theme` on body and html,
        and no other class changes. */
    method SetThemeClass(dark: bool)
      modifies this`bodyClasses, this`htmlClasses
      ensures bodyClasses == if dark then old(bodyClasses) + {THEME_CLASS} else old(bodyClasses) - {THEME_CLASS}
      ensures htmlClasses == if dark then old(htmlClasses) + {THEME_CLASS} else old(htmlClasses) - {THEME_CLASS}
      ensures (THEME_CLASS in bodyClasses <==> dark) && (THEME_CLASS in htmlClasses <==> dark)
    {
      if dark {
        bodyClasses := bodyClasses + {THEME_CLASS};
        htmlClasses := htmlClasses + {THEME_CLASS};
      } else {
        bodyClasses := bodyClasses - {THEME_CLASS};
        htmlClasses := htmlClasses - {THEME_CLASS};
      }
    }

    /** `updateButtonIcon`: nothing without a button; otherwise icon and tooltip follow the state. */
    method UpdateButtonIcon()
      modifies this`iconClass, this`title
      ensures ButtonShown()
      ensures buttons == 0 ==> iconClass == old(iconClass) && title == old(title)
    {
      if buttons == 0 {
        return;
      }
      var mode := Mode();
      var dark := Dark();
      iconClass := IconClass(mode);
      title := Tooltip(mode, dark);
    }

    /** `applyEffectiveTheme`. */
    method ApplyEffectiveTheme()
      modifies this`bodyClasses, this`htmlClasses, this`iconClass, this`title
      ensures ThemeShown() && ButtonShown()
      ensures bodyClasses - {THEME_CLASS} == old(bodyClasses) - {THEME_CLASS}
      ensures htmlClasses - {THEME_CLASS} == old(htmlClasses) - {THEME_CLASS}
    {
      SetThemeClass(Dark());
      UpdateButtonIcon();
    }

    /** `cycleMode`, the button's click handler: stores the next mode and
        re-applies the theme. With broken storage the mode stays "auto". */
    method CycleMode()
      modifies this`stored, this`bodyClasses, this`htmlClasses, this`iconClass, this`title
      ensures Mode() == if storageOk then NextMode(old(Mode())) else old(Mode())
      ensures ThemeShown() && ButtonShown()
      ensures bodyClasses - {THEME_CLASS} == old(bodyClasses) - {THEME_CLASS}
      ensures htmlClasses - {THEME_CLASS} == old(htmlClasses) - {THEME_CLASS}
    {
      var next := NextMode(Mode());
      SetStored(next);
      ApplyEffectiveTheme();
    }

    /** `setupSystemListener`: the listener exists only if the media query works. */
    method SetupSystemListener()
      modifies this`listening
      ensures listening == (old(listening) || ambient.Some?)
    {
      if ambient.Some? {
        listening := true;
      }
    }

    /** The media-query "change" listener: the ambient preference becomes
        `now`, and the theme is re-applied only while the mode is "auto". */
    method AmbientChanged(now: bool)
      requires listening
      modifies this`ambient, this`bodyClasses, this`htmlClasses, this`iconClass, this`title
      ensures ambient == Some(now)
      ensures old(Mode()) == "auto" ==> ThemeShown() && ButtonShown()
      ensures bodyClasses - {THEME_CLASS} == old(bodyClasses) - {THEME_CLASS}
      ensures htmlClasses - {THEME_CLASS} == old(htmlClasses) - {THEME_CLASS}
      ensures old(Mode()) != "auto" ==>
        bodyClasses == old(bodyClasses) && htmlClasses == old(htmlClasses) &&
        iconClass == old(iconClass) && title == old(title)
    {
      ambient := Some(now);
      if Mode() == "auto" {
        ApplyEffectiveTheme();
      }
    }

    /** `createToggle`: a no-op returning false when the button already
        exists or there is no top bar; otherwise inserts one button showing
        the current mode. */
    method CreateToggle() returns (created: bool)
      modifies this`buttons, this`iconClass, this`title
      ensures created == (old(buttons) == 0 && hasTopbar)
      ensures buttons == old(buttons) + (if created then 1 else 0)
      ensures created ==> ButtonShown()
      ensures !created ==> iconClass == old(iconClass) && title == old(title)
    {
      if buttons > 0 {
        return false;
      }
      if !hasTopbar {
        return false;
      }
      buttons := 1;
      iconClass := IconClass(Mode());
      UpdateButtonIcon();
      return true;
    }

    /** `tryCreateToggle`: applies the theme, sets up the listener, tries to
        insert the button at once and then on up to 50 interval ticks,
        stopping at the first success. The top bar is rendered by the host
        application on its own schedule: it exists at tick `topbarFrom`
        (tick 0 being the immediate try) and stays. Returns the tick count
        `attempts` at which the interval was cleared (0 when it never started). */
    method TryCreateToggle(topbarFrom: nat) returns (attempts: nat)
      requires buttons <= 1
      modifies this`bodyClasses, this`htmlClasses, this`listening, this`hasTopbar,
               this`buttons, this`iconClass, this`title
      ensures ThemeShown()
      ensures buttons <= 1
      ensures attempts <= MAX_ATTEMPTS
      ensures bodyClasses - {THEME_CLASS} == old(bodyClasses) - {THEME_CLASS}
      ensures htmlClasses - {THEME_CLASS} == old(htmlClasses) - {THEME_CLASS}
      ensures listening == (old(listening) || ambient.Some?)
      ensures var first := if old(hasTopbar) then 0 else topbarFrom;
        && buttons == (if old(buttons) == 1 || first <= MAX_ATTEMPTS then 1 else 0)
        && attempts == (if old(buttons) == 0 && first <= MAX_ATTEMPTS then first else MAX_ATTEMPTS)
      ensures old(buttons) == 0 && buttons == 1 ==> ButtonShown()
    {
      SetThemeClass(Dark());
      SetupSystemListener();
      attempts := InsertToggle(topbarFrom);
    }

    /** The insertion part of `tryCreateToggle`: the immediate try, then
        the interval when that fails. */
    method InsertToggle(topbarFrom: nat) returns (attempts: nat)
      requires buttons <= 1
      modifies this`hasTopbar, this`buttons, this`iconClass, this`title
      ensures buttons <= 1
      ensures attempts <= MAX_ATTEMPTS
      ensures var first := if old(hasTopbar) then 0 else topbarFrom;
        && buttons == (if old(buttons) == 1 || first <= MAX_ATTEMPTS then 1 else 0)
        && attempts == (if old(buttons) == 0 && first <= MAX_ATTEMPTS then first else MAX_ATTEMPTS)
      ensures old(buttons) == 0 && buttons == 1 ==> ButtonShown()
    {
      ghost var first := if hasTopbar then 0 else topbarFrom;
      if topbarFrom == 0 {
        hasTopbar := true;
      }
      var created := CreateToggle();
      attempts := 0;
      if !created {
        attempts := Retry(topbarFrom, first);
      }
    }

    /** The interval of `tryCreateToggle` after a failed immediate try: ticks
        until the button is inserted or `MAX_ATTEMPTS` ticks have passed. The
        top bar exists from tick `first` on. Returns the tick at which the
        interval was cleared. */
    method Retry(topbarFrom: nat, ghost first: nat) returns (attempts: nat)
      requires first == 0 || first == topbarFrom
      requires hasTopbar == (first == 0)
      requires buttons <= 1 && (buttons == 1 || !hasTopbar)
      modifies this`hasTopbar, this`buttons, this`iconClass, this`title
      ensures 0 < attempts <= MAX_ATTEMPTS
      ensures buttons == (if old(buttons) == 1 || first <= MAX_ATTEMPTS then 1 else 0)
      ensures attempts == (if old(buttons) == 0 && first <= MAX_ATTEMPTS then first else MAX_ATTEMPTS)
      ensures old(buttons) == 0 && buttons == 1 ==> ButtonShown()
    {
      var created := false;
      attempts := 0;
      while !created && attempts < MAX_ATTEMPTS
        invariant attempts <= MAX_ATTEMPTS
        invariant hasTopbar == (first <= attempts)
        invariant old(buttons) == 1 ==> buttons == 1 && !created
        invariant old(buttons) == 0 && created ==> buttons == 1 && attempts == first && ButtonShown()
        invariant old(buttons) == 0 && !created ==> buttons == 0 && attempts < first
      {
        attempts := attempts + 1;
        created := Tick(topbarFrom, attempts);
      }
    }

    /** One interval tick of `tryCreateToggle`: the top bar appears once
        tick `topbarFrom` is reached, then insertion is tried. */
    method Tick(topbarFrom: nat, tick: nat) returns (created: bool)
      modifies this`hasTopbar, this`buttons, this`iconClass, this`title
      ensures hasTopbar == (old(hasTopbar) || tick >= topbarFrom)
      ensures created == (old(buttons) == 0 && hasTopbar)
      ensures buttons == old(buttons) + (if created then 1 else 0)
      ensures created ==> ButtonShown()
    {
      if tick >= topbarFrom {
        hasTopbar := true;
      }
      created := CreateToggle();
    }
  }

  /** At most one toggle button ever exists, however often insertion is tried. */
  method CreateToggleTwice(page: Page)
    requires page.buttons == 0
    modifies page
    ensures page.buttons <= 1
  {
    var first := page.CreateToggle();
    var second := page.CreateToggle();
    assert !second;
  }
}
