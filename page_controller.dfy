/**
 * The page script static/js/main.js: theme persistence, the collapsible
 * primary navigation and the "current section" marker on the navigation
 * chips, driven by scrolling and by the URL fragment.
 *
 * The DOM is reduced to what the script reads and writes. Which optional
 * elements exist, the chips' `hash` values and the sections' ids are fixed
 * when the script starts; the window's geometry (scroll offset, header
 * height, section extents, viewport width) and the user's events are passed
 * to the handler that reads them.
 */
module PageController {
  import opened Wrappers

  const ThemeLight := "theme-light"
  const ThemeDark := "theme-dark"
  /** Body class of an open navigation menu. */
  const BodyNavOpen := "nav-open"
  /** Header class of an open navigation menu. */
  const HeaderNavOpen := "site-header--nav-open"
  /** The fragment of the top of the page. */
  const TopHash := "#top"
  /** Pixels added below the sticky header when probing for the current section. */
  const ProbeMargin := 24
  /** Viewport width above which a resize closes the menu. */
  const NavBreakpoint := 768

  /** The theme chosen at start-up: a non-empty stored value, otherwise the
      one the colour-scheme media query prefers. */
  function InitialTheme(saved: Option<string>, preferDark: bool): (mode: string)
    ensures saved.Some? && saved.value != "" ==> mode == saved.value
    ensures (saved.None? || saved.value == "") ==> (mode == ThemeDark <==> preferDark)
    ensures (saved.None? || saved.value == "") ==> (mode == ThemeLight || mode == ThemeDark)
  {
    if saved.Some? && saved.value != "" then saved.value
    else if preferDark then ThemeDark
    else ThemeLight
  }

  /** The body classes after `setTheme(mode)`. */
  function WithTheme(classes: set<string>, mode: string): (c: set<string>)
    ensures mode in c
    ensures forall x :: x != ThemeLight && x != ThemeDark && x != mode ==> (x in c <==> x in classes)
    ensures (mode == ThemeLight || mode == ThemeDark) ==> c * {ThemeLight, ThemeDark} == {mode}
  {
    classes - {ThemeLight, ThemeDark} + {mode}
  }

  /** A falsy fragment or a bare "#" denotes the top of the page. */
  function Normalize(hash: string): (h: string)
    ensures h != "" && h != "#"
    ensures h == hash || h == TopHash
    ensures hash != "" && hash != "#" ==> h == hash
  {
    if hash == "#" || hash == "" then TopHash else hash
  }

  /** `window.location.hash || '#top'`. */
  function OrTop(hash: string): (r: string)
    ensures r != "" && (hash != "" ==> r == hash)
    ensures Normalize(r) == Normalize(hash)
  {
    if hash == "" then TopHash else hash
  }

  /** The first chip whose `hash` is `h` (`Array.prototype.find`). */
  function FindChip(chips: seq<string>, h: string): (r: Option<nat>)
    ensures r.None? <==> h !in chips
    ensures r.Some? ==> r.value < |chips| && chips[r.value] == h &&
                        forall j :: 0 <= j < r.value ==> chips[j] != h
  {
    if chips == [] then None
    else if chips[0] == h then Some(0)
    else match FindChip(chips[1..], h)
      case None => None
      case Some(i) => Some(i + 1)
  }

  /** Which chips carry `aria-current="page"` when `active` is the active hash. */
  function Markers(chips: seq<string>, active: Option<string>): (m: seq<bool>)
    ensures |m| == |chips|
    ensures forall i :: 0 <= i < |m| && m[i] ==> active == Some(chips[i])
    ensures forall i, j :: 0 <= i < j < |m| && m[i] ==> !m[j]
    ensures active.Some? && active.value in chips ==> true in m
    ensures active.None? ==> true !in m
  {
    var m := seq(|chips|, i requires 0 <= i < |chips| =>
                   active.Some? && FindChip(chips, active.value) == Some(i));
    assert active.Some? ==> var r := FindChip(chips, active.value);
                            r.Some? ==> r.value < |m| && m[r.value] && chips[r.value] == active.value;
    m
  }

  /** The active hash after `setActiveChip(hash, ...)` when it was `active`. */
  function NextActive(chips: seq<string>, active: Option<string>, hash: string): (r: Option<string>)
    ensures r == active || (hash != "" && r == Some(Normalize(hash)) && Normalize(hash) in chips)
    ensures hash != "" && Normalize(hash) in chips ==> r == Some(Normalize(hash))
    ensures active.Some? && active.value in chips ==> r.Some? && r.value in chips
  {
    if hash == "" then active
    else
      var h := Normalize(hash);
      if active == Some(h) || h !in chips then active else Some(h)
  }

  /** Activating the same hash a second time changes nothing. */
  lemma ActivationIsIdempotent(chips: seq<string>, active: Option<string>, hash: string)
    ensures var once := NextActive(chips, active, hash);
            NextActive(chips, once, hash) == once
  {
  }

  /** The fragment part of the URL written by `history.replaceState`. */
  function Fragment(h: string): (f: string)
    ensures f == "" <==> h == TopHash || h == ""
    ensures h != TopHash ==> f == h
  {
    if h == TopHash then "" else h
  }

  /** The URL written by `history.replaceState` for the normalised hash `h`. */
  function HistoryUrl(pathname: string, h: string): (url: string)
    ensures pathname <= url
    ensures h == TopHash ==> url == pathname
    ensures h != TopHash ==> url[|pathname|..] == h
  {
    pathname + Fragment(h)
  }

  /** `offsetTop` and `offsetHeight` of a section. */
  datatype Extent = Extent(top: int, height: int)

  predicate Covers(e: Extent, probe: int) {
    e.top <= probe < e.top + e.height
  }

  /** The document offset probed for the current section. */
  function ScrollProbe(scrollY: int, hasHeader: bool, headerHeight: int): (r: int)
    ensures !hasHeader ==> r == scrollY + ProbeMargin
    ensures hasHeader ==> r - headerHeight == scrollY + ProbeMargin
  {
    scrollY + (if hasHeader then headerHeight else 0) + ProbeMargin
  }

  /** The current section: the last one whose extent contains `probe`, or the
      first section when none does. */
  function SectionAt(layout: seq<Extent>, probe: int): (k: nat)
    ensures |layout| > 0 ==> k < |layout|
  {
    if |layout| == 0 then 0
    else if Covers(layout[|layout| - 1], probe) then |layout| - 1
    else SectionAt(layout[..|layout| - 1], probe)
  }

  lemma {:induction false} SectionAtIsLastCovering(layout: seq<Extent>, probe: int)
    requires |layout| > 0
    ensures var k := SectionAt(layout, probe);
            && (forall i :: k < i < |layout| ==> !Covers(layout[i], probe))
            && (Covers(layout[k], probe) ||
                (k == 0 && forall i :: 0 <= i < |layout| ==> !Covers(layout[i], probe)))
  {
    var n := |layout|;
    if !Covers(layout[n - 1], probe) && n > 1 {
      var init := layout[..n - 1];
      SectionAtIsLastCovering(init, probe);
      assert forall i :: 0 <= i < n - 1 ==> init[i] == layout[i];
    }
  }

  /** The `sections.forEach` scan of `syncActiveFromScroll`. */
  method FindSection(layout: seq<Extent>, probe: int) returns (k: nat)
    requires |layout| > 0
    ensures k == SectionAt(layout, probe)
  {
    k := 0;
    var i := 0;
    while i < |layout|
      invariant 0 <= i <= |layout|
      invariant k == SectionAt(layout[..i], probe)
    {
      assert layout[..i + 1][..i] == layout[..i];
      if Covers(layout[i], probe) {
        k := i;
      }
      i := i + 1;
    }
    assert layout[..i] == layout;
  }

  /** Sections 0 (0..500), 1 (500..1200) and 2 (1200..2000): scrolled to 500
      under a 50-pixel header, the probe is 574 and section 1 is current. */
  lemma ProbeExample()
    ensures SectionAt([Extent(0, 500), Extent(500, 700), Extent(1200, 800)],
                      ScrollProbe(500, true, 50)) == 1
  {
  }

  /** The state the script keeps and the DOM state it writes. */
  class Controller {
    /** `.mode-toggle` exists. */
    const hasModeToggle: bool
    /** `.site-header` exists. */
    const hasHeader: bool
    /** `.nav-toggle` exists. */
    const hasNavToggle: bool
    /** `.primary-nav` exists. */
    const hasPrimaryNav: bool
    /** `history.replaceState` is available. */
    const hasReplaceState: bool
    /** `window.location.pathname`. */
    const pathname: string
    /** The `hash` of every `.nav-chip`, in document order. */
    const chips: seq<string>
    /** The `id` of every `.page-section`, in document order. */
    const sectionIds: seq<string>

    /** The body classes the script manages (theme and menu). */
    var bodyClasses: set<string>
    /** The header classes the script manages. */
    var headerClasses: set<string>
    /** `aria-expanded` of the navigation toggle. */
    var ariaExpanded: string
    /** The theme saved in `localStorage` under "syricoff-theme". */
    var stored: Option<string>
    /** The `activeHash` closure variable. */
    var activeHash: Option<string>
    /** Which chips carry `aria-current="page"`. */
    var current: seq<bool>
    /** `window.location.hash`. */
    var locationHash: string
    /** The URLs passed to `history.replaceState`, oldest first. */
    var history: seq<string>
    /** The `ticking` closure variable of the scroll throttle. */
    var ticking: bool
    /** Animation-frame callbacks requested and not yet run. */
    var pendingFrames: nat

    predicate NavOpen()
      reads this
    {
      BodyNavOpen in bodyClasses
    }

    /** The scroll handler and the section sync exist only when the page has
        both sections and chips. */
    predicate ScrollWired() {
      |sectionIds| > 0 && |chips| > 0
    }

    /** The toggle, resize and outside-click logic is registered only when the
        toggle, the menu and the header all exist. */
    predicate MenuWired() {
      hasNavToggle && hasPrimaryNav && hasHeader
    }

    ghost predicate ThemeValid()
      reads this
    {
      && stored.Some?
      && (stored.value == ThemeLight || stored.value == ThemeDark)
      && bodyClasses * {ThemeLight, ThemeDark} == {stored.value}
    }

    ghost predicate NavValid()
      reads this
    {
      && bodyClasses <= {ThemeLight, ThemeDark, BodyNavOpen}
      && headerClasses <= {HeaderNavOpen}
      && (HeaderNavOpen in headerClasses <==> NavOpen())
      && (NavOpen() ==> MenuWired())
      && (hasNavToggle ==> ariaExpanded == (if NavOpen() then "true" else "false"))
    }

    ghost predicate ChipsValid()
      reads this
    {
      && current == Markers(chips, activeHash)
      && (activeHash.Some? ==> activeHash.value in chips)
    }

    ghost predicate Valid()
      reads this
    {
      && ThemeValid()
      && NavValid()
      && ChipsValid()
      && pendingFrames == (if ticking then 1 else 0)
      && (ticking ==> ScrollWired())
    }

    twostate predicate ThemeUnchanged()
      reads this
    {
      stored == old(stored) && bodyClasses * {ThemeLight, ThemeDark} == old(bodyClasses) * {ThemeLight, ThemeDark}
    }

    twostate predicate NavUnchanged()
      reads this
    {
      && NavOpen() == old(NavOpen())
      && headerClasses == old(headerClasses)
      && ariaExpanded == old(ariaExpanded)
    }

    twostate predicate ChipsUnchanged()
      reads this
    {
      && activeHash == old(activeHash)
      && current == old(current)
      && locationHash == old(locationHash)
      && history == old(history)
    }

    twostate predicate ScrollUnchanged()
      reads this
    {
      ticking == old(ticking) && pendingFrames == old(pendingFrames)
    }

    /** The URLs `setActiveChip(hash, manageHistory)` passes to
        `history.replaceState` when the active hash was `prev`. */
    function Replacement(prev: Option<string>, hash: string, manageHistory: bool): (urls: seq<string>)
      ensures |urls| <= 1
      ensures urls != [] <==> manageHistory && hasReplaceState && NextActive(chips, prev, hash) != prev
      ensures urls != [] ==> urls == [HistoryUrl(pathname, Normalize(hash))]
    {
      if manageHistory && hasReplaceState && NextActive(chips, prev, hash) != prev
      then [HistoryUrl(pathname, Normalize(hash))]
      else []
    }

    /** The fragment `syncActiveFromScroll` activates. */
    function SyncTarget(layout: seq<Extent>, scrollY: int, headerHeight: int): (hash: string)
      requires |layout| == |sectionIds| > 0
      ensures exists k :: 0 <= k < |sectionIds| && hash == "#" + sectionIds[k]
    {
      var k := SectionAt(layout, ScrollProbe(scrollY, hasHeader, headerHeight));
      "#" + sectionIds[k]
    }

    /** Script start-up: apply the initial theme, mark the chip of the current
        fragment, then the chip of the section under the header. */
    constructor (hasModeToggle: bool, hasHeader: bool, hasNavToggle: bool, hasPrimaryNav: bool,
                 hasReplaceState: bool, pathname: string, chips: seq<string>, sectionIds: seq<string>,
                 locationHash: string, saved: Option<string>, preferDark: bool,
                 layout: seq<Extent>, scrollY: int, headerHeight: int)
      requires saved.None? || saved.value in {"", ThemeLight, ThemeDark}
      requires |layout| == |sectionIds|
      ensures Valid()
      ensures this.hasModeToggle == hasModeToggle && this.hasHeader == hasHeader
      ensures this.hasNavToggle == hasNavToggle && this.hasPrimaryNav == hasPrimaryNav
      ensures this.hasReplaceState == hasReplaceState && this.pathname == pathname
      ensures this.chips == chips && this.sectionIds == sectionIds
      ensures stored == Some(InitialTheme(saved, preferDark))
      ensures bodyClasses == {InitialTheme(saved, preferDark)}
      ensures !NavOpen() && !ticking && pendingFrames == 0
      ensures var fromUrl := if |chips| > 0 then NextActive(chips, None, OrTop(locationHash)) else None;
              if ScrollWired() then
                var target := SyncTarget(layout, scrollY, headerHeight);
                && activeHash == NextActive(chips, fromUrl, target)
                && history == Replacement(fromUrl, target, true)
                && this.locationHash == (if history == [] then locationHash else Fragment(Normalize(target)))
              else
                && activeHash == fromUrl
                && history == []
                && this.locationHash == locationHash
    {
      this.hasModeToggle := hasModeToggle;
      this.hasHeader := hasHeader;
      this.hasNavToggle := hasNavToggle;
      this.hasPrimaryNav := hasPrimaryNav;
      this.hasReplaceState := hasReplaceState;
      this.pathname := pathname;
      this.chips := chips;
      this.sectionIds := sectionIds;
      bodyClasses := {};
      headerClasses := {};
      ariaExpanded := "false";
      stored := None;
      activeHash := None;
      current := Markers(chips, None);
      this.locationHash := locationHash;
      history := [];
      ticking := false;
      pendingFrames := 0;
      new;
      SetTheme(InitialTheme(saved, preferDark));
      if |chips| > 0 {
        UpdateActiveNav();
      }
      if ScrollWired() {
        SyncActiveFromScroll(layout, scrollY, headerHeight);
      }
    }

    /** `setTheme(mode)`: exactly one theme class on the body, and persisted. */
    method SetTheme(mode: string)
      modifies this
      ensures bodyClasses == WithTheme(old(bodyClasses), mode)
      ensures stored == Some(mode)
      ensures headerClasses == old(headerClasses) && ariaExpanded == old(ariaExpanded)
      ensures ChipsUnchanged() && ScrollUnchanged()
    {
      bodyClasses := bodyClasses - {ThemeLight, ThemeDark};
      bodyClasses := bodyClasses + {mode};
      stored := Some(mode);
    }

    /** A click on the mode toggle switches dark to light and anything else to dark. */
    method OnModeToggleClick()
      requires Valid()
      modifies this
      ensures Valid()
      ensures hasModeToggle ==> stored != old(stored)
      ensures hasModeToggle ==> (stored == Some(ThemeLight) <==> old(stored) == Some(ThemeDark))
      ensures !hasModeToggle ==> ThemeUnchanged()
      ensures NavUnchanged() && ChipsUnchanged() && ScrollUnchanged()
    {
      if hasModeToggle {
        var next := if ThemeDark in bodyClasses then ThemeLight else ThemeDark;
        assert ThemeDark in bodyClasses <==> stored == Some(ThemeDark) by {
          assert ThemeDark in bodyClasses <==> ThemeDark in bodyClasses * {ThemeLight, ThemeDark};
        }
        SetTheme(next);
      }
    }

    /** Two clicks on the mode toggle restore the theme. */
    method ToggleTwice()
      requires Valid()
      modifies this
      ensures Valid()
      ensures stored == old(stored) && bodyClasses == old(bodyClasses)
      ensures NavUnchanged() && ChipsUnchanged() && ScrollUnchanged()
    {
      OnModeToggleClick();
      OnModeToggleClick();
      assert bodyClasses == bodyClasses * {ThemeLight, ThemeDark} + (bodyClasses - {ThemeLight, ThemeDark});
      assert old(bodyClasses) == old(bodyClasses) * {ThemeLight, ThemeDark} + (old(bodyClasses) - {ThemeLight, ThemeDark});
    }

    /** `closeNav()`: the menu is closed on the body, the header and the toggle. */
    method CloseNav()
      requires Valid()
      modifies this
      ensures Valid()
      ensures !NavOpen() && HeaderNavOpen !in headerClasses
      ensures bodyClasses == old(bodyClasses) - {BodyNavOpen}
      ensures hasNavToggle ==> ariaExpanded == "false"
      ensures !hasNavToggle ==> ariaExpanded == old(ariaExpanded)
      ensures ThemeUnchanged() && ChipsUnchanged() && ScrollUnchanged()
    {
      if hasHeader {
        headerClasses := headerClasses - {HeaderNavOpen};
      }
      bodyClasses := bodyClasses - {BodyNavOpen};
      if hasNavToggle {
        ariaExpanded := "false";
      }
    }

    /** A click on the navigation toggle opens a closed menu and closes an open one. */
    method OnNavToggleClick()
      requires Valid()
      modifies this
      ensures Valid()
      ensures MenuWired() ==> NavOpen() == !old(NavOpen())
      ensures !MenuWired() ==> NavUnchanged()
      ensures ThemeUnchanged() && ChipsUnchanged() && ScrollUnchanged()
    {
      if MenuWired() {
        var isExpanded := ariaExpanded == "true";
        if isExpanded {
          CloseNav();
        } else {
          headerClasses := headerClasses + {HeaderNavOpen};
          bodyClasses := bodyClasses + {BodyNavOpen};
          ariaExpanded := "true";
        }
      }
    }

    /** A resize to a viewport wider than the breakpoint closes the menu. */
    method OnResize(innerWidth: int)
      requires Valid()
      modifies this
      ensures Valid()
      ensures MenuWired() && innerWidth > NavBreakpoint ==> !NavOpen()
      ensures !(MenuWired() && innerWidth > NavBreakpoint) ==> NavUnchanged()
      ensures ThemeUnchanged() && ChipsUnchanged() && ScrollUnchanged()
    {
      if MenuWired() && innerWidth > NavBreakpoint {
        CloseNav();
      }
    }

    /** A click on a chip closes the menu (the fragment change follows as a
        separate `hashchange` event). */
    method OnChipClick(chip: nat)
      requires Valid()
      requires chip < |chips|
      modifies this
      ensures Valid()
      ensures !NavOpen()
      ensures ThemeUnchanged() && ChipsUnchanged() && ScrollUnchanged()
    {
      CloseNav();
    }

    /** Escape closes the menu; any other key does nothing. */
    method OnKeyDown(key: string)
      requires Valid()
      modifies this
      ensures Valid()
      ensures key == "Escape" ==> !NavOpen()
      ensures key != "Escape" ==> NavUnchanged()
      ensures ThemeUnchanged() && ChipsUnchanged() && ScrollUnchanged()
    {
      if key == "Escape" {
        CloseNav();
      }
    }

    /** A click anywhere in the document: an open menu closes unless the
        click landed inside the menu or on the toggle. */
    method OnDocumentClick(inPrimaryNav: bool, inNavToggle: bool)
      requires Valid()
      modifies this
      ensures Valid()
      ensures old(NavOpen()) && !(hasPrimaryNav && inPrimaryNav) && !(hasNavToggle && inNavToggle) ==> !NavOpen()
      ensures !(old(NavOpen()) && !(hasPrimaryNav && inPrimaryNav) && !(hasNavToggle && inNavToggle)) ==> NavUnchanged()
      ensures ThemeUnchanged() && ChipsUnchanged() && ScrollUnchanged()
    {
      if !hasHeader || HeaderNavOpen !in headerClasses {
        return;
      }
      if hasPrimaryNav && inPrimaryNav {
        return;
      }
      if hasNavToggle && inNavToggle {
        return;
      }
      CloseNav();
    }

    /** `setActiveChip(hash, manageHistory)`: marks the chip of the normalised
        hash, and with `manageHistory` rewrites the URL without a new entry. */
    method SetActiveChip(hash: string, manageHistory: bool)
      requires Valid()
      modifies this
      ensures Valid()
      ensures activeHash == NextActive(chips, old(activeHash), hash)
      ensures history == old(history) + Replacement(old(activeHash), hash, manageHistory)
      ensures locationHash == if history == old(history) then old(locationHash) else Fragment(Normalize(hash))
      ensures ThemeUnchanged() && NavUnchanged() && ScrollUnchanged()
      ensures bodyClasses == old(bodyClasses)
    {
      if hash == "" {
        return;
      }
      var normalizedHash := Normalize(hash);
      if activeHash == Some(normalizedHash) {
        return;
      }
      var target := FindChip(chips, normalizedHash);
      if target.None? {
        return;
      }
      var marks := current;
      var i := 0;
      while i < |marks|
        invariant 0 <= i <= |marks| == |chips|
        invariant forall j :: 0 <= j < i ==> !marks[j]
      {
        marks := marks[i := false];
        i := i + 1;
      }
      current := marks[target.value := true];
      activeHash := Some(normalizedHash);
      if manageHistory && hasReplaceState {
        history := history + [HistoryUrl(pathname, normalizedHash)];
        locationHash := Fragment(normalizedHash);
      }
    }

    /** `updateActiveNav()`: activates the current fragment, or the top of the
        page, without touching the history. */
    method UpdateActiveNav()
      requires Valid()
      modifies this
      ensures Valid()
      ensures activeHash == NextActive(chips, old(activeHash), OrTop(old(locationHash)))
      ensures history == old(history) && locationHash == old(locationHash)
      ensures ThemeUnchanged() && NavUnchanged() && ScrollUnchanged()
      ensures bodyClasses == old(bodyClasses)
    {
      SetActiveChip(OrTop(locationHash), false);
    }

    /** `syncActiveFromScroll()`: activates the section under the header and
        records it in the URL. */
    method SyncActiveFromScroll(layout: seq<Extent>, scrollY: int, headerHeight: int)
      requires Valid()
      requires ScrollWired() && |layout| == |sectionIds|
      modifies this
      ensures Valid()
      ensures var target := SyncTarget(layout, scrollY, headerHeight);
              && activeHash == NextActive(chips, old(activeHash), target)
              && history == old(history) + Replacement(old(activeHash), target, true)
              && locationHash == (if history == old(history) then old(locationHash) else Fragment(Normalize(target)))
      ensures ThemeUnchanged() && NavUnchanged() && ScrollUnchanged()
      ensures bodyClasses == old(bodyClasses)
    {
      var offset := (if hasHeader then headerHeight else 0) + ProbeMargin;
      var scrollPos := scrollY + offset;
      var k := FindSection(layout, scrollPos);
      SetActiveChip("#" + sectionIds[k], true);
    }

    /** `hashchange`: the browser has set the fragment to `newHash`. */
    method OnHashChange(newHash: string)
      requires Valid()
      modifies this
      ensures Valid()
      ensures locationHash == newHash && history == old(history)
      ensures |chips| > 0 ==> activeHash == NextActive(chips, old(activeHash), OrTop(newHash))
      ensures |chips| == 0 ==> activeHash == old(activeHash)
      ensures ThemeUnchanged() && NavUnchanged() && ScrollUnchanged()
    {
      locationHash := newHash;
      if |chips| > 0 {
        UpdateActiveNav();
      }
    }

    /** `load`: the fragment listener runs first, then the section sync. */
    method OnLoad(layout: seq<Extent>, scrollY: int, headerHeight: int)
      requires Valid()
      requires |layout| == |sectionIds|
      modifies this
      ensures Valid()
      ensures var fromUrl := if |chips| > 0 then NextActive(chips, old(activeHash), OrTop(old(locationHash))) else old(activeHash);
              if ScrollWired() then
                var target := SyncTarget(layout, scrollY, headerHeight);
                && activeHash == NextActive(chips, fromUrl, target)
                && history == old(history) + Replacement(fromUrl, target, true)
                && locationHash == (if history == old(history) then old(locationHash) else Fragment(Normalize(target)))
              else
                && activeHash == fromUrl
                && history == old(history)
                && locationHash == old(locationHash)
      ensures ThemeUnchanged() && NavUnchanged() && ScrollUnchanged()
    {
      if |chips| > 0 {
        UpdateActiveNav();
      }
      if ScrollWired() {
        SyncActiveFromScroll(layout, scrollY, headerHeight);
      }
    }

    /** `scroll`: requests one animation frame unless one is already pending. */
    method OnScroll()
      requires Valid()
      modifies this
      ensures Valid()
      ensures pendingFrames <= 1
      ensures ScrollWired() && !old(ticking) ==> ticking && pendingFrames == 1
      ensures !(ScrollWired() && !old(ticking)) ==> ScrollUnchanged()
      ensures ThemeUnchanged() && NavUnchanged() && ChipsUnchanged()
    {
      if !ScrollWired() || ticking {
        return;
      }
      ticking := true;
      pendingFrames := pendingFrames + 1;
    }

    /** The requested animation frame: sync, then accept scroll events again. */
    method OnAnimationFrame(layout: seq<Extent>, scrollY: int, headerHeight: int)
      requires Valid()
      requires pendingFrames > 0 && |layout| == |sectionIds|
      modifies this
      ensures Valid()
      ensures !ticking && pendingFrames == 0
      ensures var target := SyncTarget(layout, scrollY, headerHeight);
              && activeHash == NextActive(chips, old(activeHash), target)
              && history == old(history) + Replacement(old(activeHash), target, true)
              && locationHash == (if history == old(history) then old(locationHash) else Fragment(Normalize(target)))
      ensures ThemeUnchanged() && NavUnchanged()
    {
      SyncActiveFromScroll(layout, scrollY, headerHeight);
      pendingFrames := pendingFrames - 1;
      ticking := false;
    }

    /** However many scroll events arrive before the next frame, at most one
        frame is pending. */
    method ScrollBurst(events: nat)
      requires Valid()
      modifies this
      ensures Valid()
      ensures pendingFrames <= 1
      ensures events > 0 && ScrollWired() ==> ticking && pendingFrames == 1
      ensures events == 0 || !ScrollWired() ==> ScrollUnchanged()
      ensures ThemeUnchanged() && NavUnchanged() && ChipsUnchanged()
    {
      var n := 0;
      while n < events
        invariant 0 <= n <= events
        invariant Valid()
        invariant n > 0 && ScrollWired() ==> ticking && pendingFrames == 1
        invariant n == 0 || !ScrollWired() ==> ScrollUnchanged()
        invariant ThemeUnchanged() && NavUnchanged() && ChipsUnchanged()
      {
        OnScroll();
        n := n + 1;
      }
    }
  }
}
