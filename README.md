# Syricoff portfolio site: content helpers and page script

This project models the core of a small portfolio site in Dafny. The site has
two parts. A Flask application (`app.py`) loads project write-ups from Markdown
files with a YAML front-matter block. A page script (`static/js/main.js`)
manages the light/dark theme, the collapsible navigation menu and the
"current section" marker on the navigation chips.

- `wrappers.dfy`: the `Option` and `Result` types.
- `pystr.dfy` (module `PyStr`): the Python `str` operations the helpers use.
  These are `isspace`, `strip`/`lstrip`/`rstrip`, `lstrip(chars)`,
  `splitlines`, `join`, `split()` and `rsplit(" ", 1)`.
- `content.dfy` (module `Content`): the pure helpers of `ProjectRepository`.
  - `_split_front_matter`
  - `_build_excerpt`
  - `_ensure_list`
  - `_normalize_asset`
  - the year coercion of `_load_project`

  A YAML value is a `Value`, and a Python exception raised by a helper is
  an `Err` result.
- `projects.dfy` (module `Projects`): the order of `list_projects`. It
  sorts newest first, stably, with an undated project keyed as
  `datetime.min`. The Python sort is modelled as a stable insertion sort.
  Its contract is proved: the result is sorted, it is a permutation of the
  loaded projects, and for every key the projects with that key keep the
  order in which they were loaded.
- `page_controller.dfy` (module `PageController`): the page script as a
  class `Controller`.
  - The script's closure variables (`activeHash`, `ticking`) and the DOM
    state it writes are fields: body and header classes, `aria-expanded`,
    the chips' `aria-current`, the stored theme, `location.hash` and the
    URLs passed to `history.replaceState`.
  - Which optional elements exist, the chips' `hash` values and the section
    ids are constants.
  - Every event listener is a method. A listener the script would not
    register does nothing.
  - Live geometry (scroll offset, header height, section extents, viewport
    width) and the facts about an event are method parameters.

  `Valid()` is the invariant every handler keeps:
  - exactly one theme class is on the body, and it is the stored value;
  - the body class, the header class and `aria-expanded` agree on whether
    the menu is open (`aria-expanded` is "true" when it is open and "false"
    when it is closed);
  - the chip markers are exactly the marker of the active hash;
  - a pending animation frame exists exactly while `ticking` is set.

The script does not pause scroll syncing after a chip click: a chip click
only closes the menu. The theme toggle is a plain flip between light and
dark, with no third state that follows the operating system. The model has
neither behaviour either.

## Model

| member | source | states |
|---|---|---|
| Content.FindClosing | app.py:124-125 | the closing delimiter found is the first line after the opening one whose strip is `---`; None when no later line is one |
| Content.SplitFrontMatter | app.py:121-130 | the returned body is always stripped; without a front-matter block the body is the whole source stripped |
| Content.SplitWithoutOpening | app.py:122-123 | a source whose first line is not a delimiter (or that is empty) has no front matter and its stripped text as body |
| Content.SplitWithoutClosing | app.py:123-130 | an opening delimiter with no closing one gives no front matter and the whole source, stripped, as body |
| Content.SplitAtFirstClosing | app.py:123-129 | with a closing delimiter at line idx and none before it, the front matter is lines 1..idx joined by newlines and the body the rest, joined and stripped |
| Content.ComposeThenSplit | app.py:121-129 | round trip: a source written as delimiter, front-matter lines, delimiter, body splits back into exactly those lines joined and the stripped body, whether or not the body ends with a newline |
| Content.StripOfJoinedLines | app.py:127-129 | splitting a body with only newline breaks into lines and joining them again leaves its strip unchanged |
| PyStr.JoinSplitLines | app.py:122-127 | joining the split lines of a text with only newline breaks gives the text back, less one final newline when it ends with one |
| PyStr.SplitLines | app.py:122 | `splitlines` gives no lines exactly for the empty text |
| PyStr.Strip | app.py:129-130 | the stripped text neither starts nor ends with whitespace |
| PyStr.StripIsSlice | app.py:129-130 | `strip` removes exactly the leading and the trailing whitespace and keeps the slice between them |
| PyStr.StripOfTrailingSpace | app.py:129 | a trailing whitespace character does not change the strip |
| PyStr.LStripChar | app.py:169 | `lstrip("/")` leaves no leading slash and never lengthens the text |
| PyStr.LStripCharIsSuffix | app.py:169 | `lstrip("/")` keeps a suffix and removes only slashes |
| PyStr.JoinLength | app.py:127-129 | `sep.join(parts)` starts with the first part and is exactly as long as all parts plus one separator between each two neighbours |
| PyStr.SplitLinesHaveNoBreaks | app.py:122 | no line produced by `splitlines` contains a line boundary |
| Content.StripTags | app.py:148 | tag removal never lengthens the text |
| Content.StripTagsKeepsText | app.py:148 | text before the first `<` is kept unchanged, in front of the rest with its tags removed |
| Content.StripTagsKeepsStrayLt | app.py:148 | a `<` that starts no tag is kept as it is, and tag removal goes on after it |
| Content.StripTagsOfTag | app.py:148 | a tag `<t>` with `t` non-empty and free of `>` is replaced by exactly one space |
| Content.StripTagsIsTagFree | app.py:148 | after tag removal no `<`, non-`>` run, `>` remains |
| Content.StripTagsAddsNoGt | app.py:148 | tag removal introduces no `>` |
| Content.Collapse | app.py:149 | after collapsing, every whitespace character is a single space not followed by whitespace; the text starts with whitespace exactly when the input did |
| Content.CollapseIsJoinedWords | app.py:149 | collapsing gives the words of the input (`split()`) separated by single spaces, with one space for leading and one for trailing whitespace |
| Content.NormalizeIsJoinedWords | app.py:149 | collapsing and stripping gives exactly `" ".join(text.split())` |
| Content.NormalizeText | app.py:148-149 | the normalised text is the words of the tag-free HTML joined by single spaces |
| PyStr.Words | app.py:149 | every word of `split()` is non-empty and holds no whitespace |
| PyStr.JoinOfWords | app.py:149 | words joined by single spaces neither start nor end with whitespace, and are empty only when there are no words |
| PyStr.StripOfPadded | app.py:149 | `strip` removes exactly the whitespace around a text that neither starts nor ends with whitespace |
| Content.CollapseKeepsVisible | app.py:149 | collapsing whitespace keeps every non-whitespace character, in order |
| Content.StripKeepsVisible | app.py:149 | stripping keeps every non-whitespace character, in order |
| Content.NormalizeTextIsNormalized | app.py:148-149 | the normalised text has no leading or trailing whitespace, no whitespace but single spaces, and the same non-whitespace characters as the tag-free HTML |
| Content.BuildExcerpt | app.py:147-153 | the excerpt is at most `length` + 2 characters long, and it is the whole normalised text or ends with the ellipsis |
| Content.Summary | app.py:97-100 | a truthy summary is kept; otherwise the summary is the excerpt of the default length 180, so it is falsy only when the excerpt is empty |
| Content.ExcerptOfShortText | app.py:150-151 | a text of at most `length` characters is returned unclipped, normalised, without an ellipsis |
| Content.ExcerptOfLongText | app.py:152-153 | a longer text becomes a non-empty prefix cut before the last space of its first length+1 characters (or at length+1 when there is none), never ending in whitespace, followed by the ellipsis |
| PyStr.BeforeLastSpace | app.py:152 | `rsplit(" ", 1)[0]` is a prefix of its input, ends right before the last space, and is the whole input when there is no space |
| Content.EnsureList | app.py:156-161 | None gives the empty list, a list gives its items converted by `str`, any other value a one-element list |
| Content.EnsureListOfStrings | app.py:156-161 | a list of strings is returned unchanged and a single string is wrapped |
| Content.EnsureListIsIdempotent | app.py:156-161 | applying `_ensure_list` to the strings it returned gives the same list again |
| Content.Str | app.py:160-161 | `str` of a string is the string itself, and `str` of a list is bracketed |
| Content.Repr | app.py:160 | `repr` of a string is the string in quotes, and of a null, boolean, integer or list its `str` |
| Content.NormalizeAsset | app.py:164-172 | a falsy value gives None, a truthy non-string fails with AttributeError, a string gives a suffix of itself |
| Content.NormalizeAssetKeepsUrls | app.py:167-168 | http and https URLs are kept verbatim |
| Content.NormalizeAssetPath | app.py:169-172 | any other path loses all its leading slashes, then at most one leading `static/`, and keeps the rest |
| Content.CoerceYear | app.py:91-95 | a missing year is None, an integer is kept, a string never raises, and a list or other value fails with TypeError |
| Content.ParseInt | app.py:93-95 | `int()` of a string succeeds only when the string holds a digit; around the numeral it skips the whitespace CPython skips, which leaves out U+001C to U+001F |
| Content.CoerceYearOfSeparator | app.py:93-95 | a year string holding any of U+001C to U+001F makes `int()` raise ValueError, so the year is None |
| Content.IntStripIsSlice | app.py:93 | the text `int()` reads is the slice of the string between the skipped whitespace at either end |
| Content.CoerceYearOfDecimal | app.py:91-95 | round trip: the decimal string of an integer of at most 4300 digits coerces back to that integer |
| Content.CoerceYearOfLongNumeral | app.py:93-95 | a numeral of more than 4300 digits makes `int()` raise ValueError, which gives None |
| Content.DigitCountOfDigits | app.py:93 | in a string of digits every character counts towards the 4300-digit limit |
| Content.CoerceYearOfNonNumber | app.py:91-95 | a string without digits coerces to None rather than raising |
| Content.DigitsRoundTrip | app.py:93 | reading back the decimal digits of a natural number gives the number |
| Projects.SortKey | app.py:70 | the key of a dated project is its date, and an undated one has the key of `datetime.min` |
| Projects.Insert | app.py:69-71 | inserting into a newest-first list keeps it newest first and adds exactly the one project |
| Projects.ListProjects | app.py:67-71 | the result is a permutation of the loaded projects and is ordered newest first by date, undated as `datetime.min` |
| Projects.InsertWithKey | app.py:69-71 | inserting a project ahead of older ones keeps the relative order of every key's projects |
| Projects.ListProjectsIsStable | app.py:67-71 | projects with equal dates keep their load order |
| Projects.UndatedLast | app.py:70 | after an undated project only projects keyed at `datetime.min` follow |
| PageController.InitialTheme | static/js/main.js:17-19 | a non-empty stored theme wins; otherwise dark exactly when the colour-scheme query prefers dark |
| PageController.WithTheme | static/js/main.js:11-13 | setting a theme leaves exactly that one of the two theme classes and no other class changed |
| PageController.Normalize | static/js/main.js:95 | a normalised hash is never empty or a bare `#`; an empty hash or `#` becomes `#top`, any other hash is kept |
| PageController.OrTop | static/js/main.js:117 | `hash || '#top'` is never empty, keeps a non-empty hash, and normalises like the hash itself |
| PageController.FindChip | static/js/main.js:101 | the chip found is the first whose hash matches; none exactly when no chip matches |
| PageController.Markers | static/js/main.js:107-108 | at most one chip is marked current, a marked chip has the active hash, and an active hash among the chips is marked |
| PageController.NextActive | static/js/main.js:90-109 | the active hash changes only to the normalised hash of a matching chip, and always does when such a chip exists |
| PageController.ActivationIsIdempotent | static/js/main.js:97-99 | activating the same hash twice changes nothing the second time |
| PageController.Fragment | static/js/main.js:112 | the URL fragment written is empty exactly for `#top` (or an empty hash); any other hash is written as it is |
| PageController.HistoryUrl | static/js/main.js:112 | the URL written starts with the path; `#top` leaves the bare path, any other hash follows the path unchanged |
| PageController.ScrollProbe | static/js/main.js:134-135 | the probe lies 24 pixels below the scroll offset, plus the header height when there is a header |
| PageController.SectionAt | static/js/main.js:136-145 | the current section index is within the layout |
| PageController.SectionAtIsLastCovering | static/js/main.js:136-145 | the current section is the last one whose extent contains the probe, or the first when none does |
| PageController.FindSection | static/js/main.js:136-145 | the scan over the sections computes the current section as specified |
| PageController.ProbeExample | static/js/main.js:134-145 | a page scrolled to 500 under a 50-pixel header probes 574 and selects the second of three sections |
| PageController.Controller.Replacement | static/js/main.js:97-113 | at most one URL is written; one is written exactly when history is managed, `replaceState` exists and the active hash changes, and it is the path plus the fragment of the normalised hash |
| PageController.Controller.SyncTarget | static/js/main.js:136-148 | the hash the scroll sync activates is `#` followed by the id of one of the sections |
| PageController.Controller.constructor | static/js/main.js:17-19 | start-up applies and stores the initial theme, leaves the menu closed, marks the chip of the URL fragment, then syncs with the section under the header and records it in the history |
| PageController.Controller.SetTheme | static/js/main.js:11-15 | the body has exactly the given theme class and the theme is stored |
| PageController.Controller.OnModeToggleClick | static/js/main.js:21-26 | the toggle always changes the theme, to light exactly when it was dark |
| PageController.Controller.ToggleTwice | static/js/main.js:21-26 | two toggles restore the stored theme and the body classes |
| PageController.Controller.CloseNav | static/js/main.js:28-36 | the menu is closed on body, header and toggle (`aria-expanded` is "false"), and nothing else changes |
| PageController.Controller.OnNavToggleClick | static/js/main.js:38-49 | a toggle click flips whether the menu is open, when toggle, menu and header exist |
| PageController.Controller.OnResize | static/js/main.js:51-55 | a resize wider than 768 pixels closes the menu; otherwise nothing changes |
| PageController.Controller.OnChipClick | static/js/main.js:58-64 | a chip click closes the menu and does not change the marker |
| PageController.Controller.OnKeyDown | static/js/main.js:66-70 | Escape closes the menu; any other key changes nothing |
| PageController.Controller.OnDocumentClick | static/js/main.js:72-86 | a click closes an open menu exactly when it is neither inside the menu nor on the toggle |
| PageController.Controller.SetActiveChip | static/js/main.js:88-114 | the active hash and markers move to the matching chip; with history management one replaceState URL is recorded exactly when the marker changed, and otherwise none |
| PageController.Controller.UpdateActiveNav | static/js/main.js:116-118 | the chip of the URL fragment, or of `#top`, is activated without touching the history |
| PageController.Controller.OnHashChange | static/js/main.js:120-121 | a fragment change re-marks the chip of the new fragment |
| PageController.Controller.SyncActiveFromScroll | static/js/main.js:129-150 | the section under the header becomes active and is written to the URL with replaceState |
| PageController.Controller.OnLoad | static/js/main.js:122 | load runs the fragment update, then the section sync; the URL fragment changes only when a URL is written, and then to the written fragment |
| PageController.Controller.OnScroll | static/js/main.js:152-164 | a scroll requests a frame only when none is pending; at most one frame is ever pending |
| PageController.Controller.OnAnimationFrame | static/js/main.js:158-161 | the frame syncs the active section, changes the URL fragment only when it writes a URL, and then accepts scroll events again |
| PageController.Controller.ScrollBurst | static/js/main.js:152-162 | any burst of scroll events leaves exactly one frame pending |

## Left out

- File system access is not modelled: reading sources, globbing `projects/*.md` and `mkdir`. `list_projects` takes the loaded projects in file-name order.
- Markdown rendering is not modelled. `_build_excerpt` takes the HTML as input.
- YAML parsing is not modelled. `SplitFrontMatter` returns the front-matter text handed to the loader. `yaml.safe_load(...) or {}` and the metadata lookups (`metadata.get("title")`, `metadata.get("summary")`, `card_accent`, ...) are not modelled. `Content.Summary` takes the looked-up summary as a value and models only `summary or excerpt`.
- `_parse_date` is not modelled. It depends on `datetime.fromisoformat` and `strptime`. Dates are ordinals, with 0 standing for `datetime.min`.
- The default title built with `.title()` is not modelled. It needs Unicode case mapping.
- The Flask routes, templates, `freeze.py` and `utcnow` are not modelled.
- `Value` has no floating-point case, so `int()` of a float YAML year (truncation) is not modelled.
- Content.Repr: quotes a string with single quotes and does not escape it as Python's `repr` does. The difference only shows in `str()` of lists nested inside a list.
- Projects.ListProjects: never fails. In Python, `sorted` raises TypeError when it compares a timezone-aware date with a naive one (such as `datetime.min`, the key of an undated project). Dates here are ordinals, so that error is not modelled.
- Content.ParseInt: accepts only ASCII digits. Python's `int()` also accepts other Unicode decimal digits. The 4300-digit limit is the default of `sys.get_int_max_str_digits()` in current Python releases; a changed limit, or a release without the limit, is not modelled.
- The page script's DOM queries, `matchMedia`, `localStorage` and `requestAnimationFrame` are modelled through the values they return. The URL is not parsed or percent-encoded.
- PageController.Controller.constructor: requires the stored theme to be absent, empty, `theme-light` or `theme-dark`. Those are the only values the script itself stores. Another stored value is not modelled: one containing whitespace makes `classList.add` throw, and `nav-open` would collide with the menu class.
- PageController.Controller: the body and header classes cover only the classes the script adds or removes. The initial markup is taken to have a closed menu (`aria-expanded="false"`) and no chip marked.
