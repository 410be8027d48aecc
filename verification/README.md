# Portfolio site scripts: a Dafny model

This project models the parts of a personal portfolio site's browser scripts
whose behaviour can be stated exactly. Each part's inputs are passed in as
values: strings, offsets, viewport sizes and random draws.

- **Contact form** (`main.js`). `validateForm` checks each field and
  builds an error object. `displayFormErrors` clears every error slot, then
  shows each reported message in the slot `getElementById` finds for it.
- **Navigation** (`main.js`). `updateActiveNav` highlights the link of the
  last section under the probe point, 100 pixels below the top of the
  viewport. The project filter buttons show or hide cards by category.
- **Theme switch** (`theme.js`). A `ThemeManager` class holds the
  `data-theme` attribute, local storage, the `theme-color` meta tag, the
  toggle icon and the `themechange` events sent. Its methods are toggle,
  set, save, load, the system-theme lookup and the colour-scheme change
  listener.
- **Particle field** (`particles.js`). A `ParticleSystem` class holds a
  particle count keyed to the viewport width and a sequence of particles.
  Each frame moves and ages every particle, and recycles one that leaves the
  viewport or dies. Resize and destroy are modelled too.
- **Text and animation helpers** (`animations.js`, `particles.js`):
  - `prepareTextReveal` and `splitText`;
  - the `typeText` typewriter, as a class;
  - `staggerListItems`, `triggerAnimation` and `applyHoverEffect`;
  - `validateInput`;
  - the loading screen's progress loop.

The behaviour of the JavaScript built-ins this code relies on is written out
in module `JsText`:
- `trim` and the regular-expression class `\s`;
- `parseInt` without a radix, and `parseInt(x) || d`;
- `split` on one character and on the empty string, `join` and `includes`;
- `.length` and `charAt`.

A JavaScript string is a sequence of UTF-16 code units. The model keeps text as
a sequence of Unicode characters, and `JsText.Units` gives its code units: one
for a character of the Basic Multilingual Plane, a surrogate pair for any other
character, such as an emoji. `.length`, `charAt` and `split('')` are stated
over those units. `trim`, a split on a space or a newline, and the e-mail
pattern give the same answer on characters as on code units. Every white-space
character, `@`, `.`, space and newline is one code unit, and none of them is a
surrogate. What code units display as is given by `JsText.FromUnits`: a
surrogate pair shows its character, and a surrogate without its partner shows
as U+FFFD.

Definitions that only compute have no row of their own in the table below.
The row of the lemma or member that states their meaning names them:
- `FormErrors`, `Fails`, `TooShort`, `BadEmail` and `Rejected`: `ContactForm.ChecksMeanRejected` and `ContactForm.FormErrorsReport`;
- `IsEmail` and `IsAtDotAddress`: `EmailPattern.EmailIff`;
- `ActiveNav`, `Covers` and `AnchorFor`: `Navigation.ActiveNavOutcome` and `Navigation.UpdateActiveNav`;
- `Matches`, `Faulty` and `Classified`: `Navigation.FilterClick` and `Navigation.ShownIffSubstring`;
- `Includes`: `JsText.IncludesWitness` and `JsText.IncludesAt`;
- `Join` and `Units`: `JsText.JoinSplit`, `JsText.UnitsJoin` and `JsText.FromUnitsUnits`;
- `Length`: `JsText.LengthUnits` and `JsText.LengthCountsCharacters`;
- `Moved` and `Expired`: `Particles.Stepped`;
- `Pieces`: `TextEffects.PiecesJoin` and `TextEffects.SplitText`;
- `InputAccepted`: `Animations.ValidateInput`;
- `HoverValue`: `Animations.ApplyHoverEffect`;
- `HasPreference`: `Theme.ThemeManager.OnSystemThemeChange`.

The e-mail regular expression `^[^\s@]+@[^\s@]+\.[^\s@]+$` is modelled in two
ways. `EmailPattern.IsEmail` is the executable form. `EmailPattern.IsAtDotAddress`
is the declarative form "`A@B.C` for non-empty A, B and C without white space
or `@`". A lemma proves the two equivalent.

`Math.random()` draws are parameters of type `Draws.Unit`, a real in [0, 1).
Particle coordinates are `real`. DOM element lists are arrays of datatype
values, updated in document order the way the scripts' `forEach` loops update
them.

## Model

| member | source | states |
|---|---|---|
| JsText.Trim | project/scripts/main.js:159 | the result is the slice of the input left after removing the leading and trailing white space, and it neither starts nor ends with white space |
| JsText.TrimKeepsTrimmed | project/scripts/animations.js:250 | trimming a string without white space at either end returns it unchanged |
| JsText.TrimIdempotent | project/scripts/animations.js:250 | trimming twice is trimming once |
| JsText.ParseInt | project/scripts/animations.js:40-41 | `parseInt` gives NaN (None) exactly when no digit of the detected radix follows the white space, sign and `0x` prefix |
| JsText.IntOr | project/scripts/animations.js:40-41 | `parseInt(attr) \|\| d` is `d` when the attribute is missing, not numeric, or reads as 0, and is the parsed value otherwise; with d ≠ 0 the result is never 0 |
| JsText.ParseIntDecimal | project/scripts/animations.js:99 | `parseInt` reads back the decimal numeral of any natural number |
| JsText.ParseIntDecimalRun | project/scripts/animations.js:40-41 | `parseInt` of an optional sign, decimal digits and text that does not continue them (`"12px"`) is the signed value of the digits |
| JsText.ParseIntHexRun | project/scripts/animations.js:40-41 | after a `0x`/`0X` prefix `parseInt` reads the following run of hexadecimal digits as a signed base-16 value |
| JsText.Split | project/scripts/animations.js:600-603 | `split` on a character gives at least one piece, and no piece contains the separator |
| JsText.JoinSplit | project/scripts/animations.js:598-606 | joining the pieces of a split with the separator gives back the text |
| JsText.SplitJoin | project/scripts/animations.js:598-606 | splitting a join of separator-free pieces gives back the pieces |
| JsText.SplitNoSeparator | project/scripts/animations.js:600-603 | a text without the separator splits into itself alone |
| JsText.SplitAtSeparator | project/scripts/animations.js:600-603 | a split cuts at the first separator, and the rest is split the same way |
| JsText.Chars | project/scripts/animations.js:606 | `split('')` gives `.length` pieces, one per UTF-16 code unit, in order |
| JsText.JoinChars | project/scripts/particles.js:308-312 | joining the one-unit pieces gives back the code units of the text |
| JsText.Utf16 | project/scripts/main.js:159 | a character of the Basic Multilingual Plane is one code unit, which is no surrogate; any other character is a high surrogate followed by a low one |
| JsText.LengthBounds | project/scripts/main.js:159 | `.length` lies between the number of characters and twice that |
| JsText.LengthUnits | project/scripts/main.js:159 | `.length` is the number of UTF-16 code units of the text |
| JsText.LengthCountsCharacters | project/scripts/animations.js:259 | `.length` equals the number of characters exactly when every character lies in the Basic Multilingual Plane |
| JsText.TrimShortens | project/scripts/main.js:159 | the trimmed text is no longer than the text, counted in code units |
| JsText.Pair | project/scripts/animations.js:568 | a surrogate pair stands for a character outside the Basic Multilingual Plane |
| JsText.FromUnitsUnits | project/scripts/animations.js:567-578 | the code units of a text display as the text |
| JsText.LoneSurrogate | project/scripts/particles.js:308-311 | a surrogate without its partner displays as U+FFFD |
| JsText.UnitsJoin | project/scripts/animations.js:598-614 | the code units of a join are the join of the pieces' code units |
| JsText.SplitUnits | project/scripts/animations.js:598-603 | splitting the code units at a space or newline gives the code units of the pieces the characters split into |
| JsText.IncludesWitness | project/scripts/main.js:114 | when `includes` holds, there is a position where the substring occurs |
| JsText.IncludesAt | project/scripts/main.js:114 | an occurrence at any position makes `includes` hold |
| EmailPattern.IndexOf | project/scripts/main.js:164-165 | finds the first occurrence of a character, or reports that there is none |
| EmailPattern.EmailSound | project/scripts/main.js:164-165 | a string the executable check accepts has the shape `A@B.C` |
| EmailPattern.EmailComplete | project/scripts/main.js:164-165 | any split of a string as `A@B.C` with valid runs makes the executable check accept it |
| EmailPattern.FirstAt | project/scripts/main.js:164-165 | an `@` preceded by a run without `@` is the first `@` |
| EmailPattern.EmailIff | project/scripts/main.js:164-165 | the executable check accepts exactly the strings of shape `A@B.C` |
| EmailPattern.EmailExamples | project/scripts/main.js:164-165 | `a@b.co` is accepted and `bad` is rejected |
| ContactForm.ErrorId | project/scripts/main.js:194 | a field's error slot id is the field name followed by `-error` |
| ContactForm.ChecksMeanRejected | project/scripts/main.js:159-177 | each field check as written agrees with its meaning. A text field fails when missing or when its trimmed value has fewer than 2, 5 or 10 UTF-16 code units (so an emoji counts twice). The e-mail fails when missing or not of shape `A@B.C`, tested untrimmed |
| ContactForm.FormErrorsReport | project/scripts/main.js:155-177 | the error object has an entry for exactly the rejected fields, each holding that field's fixed message |
| ContactForm.ErrorDependsOnOwnField | project/scripts/main.js:159-177 | whether a field is reported depends on that field's value alone |
| ContactForm.ShortFieldsRejected | project/scripts/main.js:155-177 | text fields whose `.length` is below the minimum and an e-mail without `@` give errors on all four fields (for example `A`, `bad`, `hi`, `short`) |
| ContactForm.WellFormedAccepted | project/scripts/main.js:155-177 | trimmed text fields whose `.length` reaches the minimum and an e-mail `local@host.tld` give no error (for example `Jo`, `a@b.co`, `Hello there`, `This is a long enough message.`) |
| ContactForm.FirstWithId | project/scripts/main.js:194 | `getElementById` returns the first slot with the id, or none when no slot has it |
| ContactForm.FieldOfId | project/scripts/main.js:194 | maps an error slot id back to the field it belongs to, or to none |
| ContactForm.FieldOfErrorId | project/scripts/main.js:194 | each field's error id leads back to that field |
| ContactForm.Displayed | project/scripts/main.js:185-199 | the display keeps the number of slots and their ids |
| ContactForm.ShownIffReported | project/scripts/main.js:193-198 | the slot found for a field is shown exactly when the field is reported, with the field's message, and is empty otherwise |
| ContactForm.OthersCleared | project/scripts/main.js:187-190 | a slot that no reported field's lookup finds ends empty and hidden |
| ContactForm.FirstWithIdSameIds | project/scripts/main.js:187-194 | clearing the slots does not change which slot `getElementById` finds |
| ContactForm.DisplayOneMore | project/scripts/main.js:193-198 | showing one more reported field changes only the slot found for it |
| ContactForm.FindSlot | project/scripts/main.js:194 | the lookup loop returns the first slot with the id |
| ContactForm.RestrictStep | project/scripts/main.js:193 | walking the fields in order adds one field's entry at a time |
| ContactForm.RestrictAll | project/scripts/main.js:193 | after the walk every entry of the error object has been visited |
| ContactForm.DisplayNothing | project/scripts/main.js:187-190 | with no errors every slot is cleared and hidden |
| ContactForm.ShowError | project/scripts/main.js:194-198 | showing one error moves the slots from the display of the errors so far to the display with that error added |
| ContactForm.DisplayFormErrors | project/scripts/main.js:185-199 | the slots end as `Displayed` prescribes: cleared, then the found slot of each reported field shows its message |
| ContactForm.ValidateForm | project/scripts/main.js:155-182 | the form is accepted exactly when the error object is empty, which is exactly when no field is rejected; the slots show the errors |
| Navigation.LastCovering | project/scripts/main.js:54-59 | finds the last section in document order whose box contains the probe point, or reports that none does |
| Navigation.FirstLinkTo | project/scripts/main.js:61 | `querySelector` finds the first link whose `href` is the section's anchor |
| Navigation.Highlighted | project/scripts/main.js:60-64 | a link is active exactly when it is the first link to the section's anchor; hrefs are unchanged |
| Navigation.ActiveNavOutcome | project/scripts/main.js:52-66 | with no covering section the links are unchanged. Otherwise at most one link is active: the first one pointing at the last covering section |
| Navigation.FirstLinkSameHrefs | project/scripts/main.js:60-61 | clearing the `active` classes does not change which link the selector finds |
| Navigation.UpdateActiveNav | project/scripts/main.js:49-67 | the links end as `ActiveNav` prescribes for the sections and the scroll offset |
| Navigation.FirstFault | project/scripts/main.js:111-114 | finds the first card without a category under a filter other than `all`, where `includes` throws |
| Navigation.FilterClick | project/scripts/main.js:103-128 | exactly the clicked button becomes active. Each card up to the first faulty one is shown if it matches and hidden otherwise, and later cards are untouched |
| Navigation.AllShowsEverything | project/scripts/main.js:114 | the filter `all` shows every card and never throws |
| Navigation.ShownIffSubstring | project/scripts/main.js:114 | under another filter, a card is shown exactly when the filter text occurs somewhere in its category |
| Theme.Toggled | project/scripts/theme.js:26-27 | a toggle gives `light` exactly from `dark`, and `dark` from anything else, including no attribute |
| Theme.ToggleTwice | project/scripts/theme.js:25-31 | toggling twice from `light` or `dark` restores it |
| Theme.ThemeColor | project/scripts/theme.js:45 | the meta colour is `#111827` exactly for `dark` and `#f8f9fa` otherwise |
| Theme.IconFor | project/scripts/theme.js:59 | the icon is the sun exactly while the theme is `dark`, and the moon otherwise |
| Theme.SystemTheme | project/scripts/theme.js:86-91 | the system theme is `dark` exactly when `matchMedia` exists and the dark query matches |
| Theme.Resolved | project/scripts/theme.js:71-84 | a readable, non-empty stored value wins as it is; otherwise the system theme applies |
| Theme.ResolutionExamples | project/scripts/theme.js:71-84 | with nothing stored the system preference applies, and a stored choice wins over it |
| Theme.ThemeManager.SetTheme | project/scripts/theme.js:34-52 | sets the attribute and the meta colour and announces exactly the theme applied; storage, icon and listener are unchanged |
| Theme.ThemeManager.UpdateThemeIcon | project/scripts/theme.js:54-61 | the icon follows the current attribute |
| Theme.ThemeManager.SaveTheme | project/scripts/theme.js:63-69 | stores the theme under `portfolio-theme`; a failing write changes nothing |
| Theme.ThemeManager.ToggleTheme | project/scripts/theme.js:25-32 | applies, announces and (unless the write fails) stores the toggled theme, then refreshes the icon |
| Theme.ThemeManager.LoadSavedTheme | project/scripts/theme.js:71-84 | applies the resolved theme; storage and icon are unchanged |
| Theme.ThemeManager.OnSystemThemeChange | project/scripts/theme.js:97-102 | applies the new system theme and refreshes the icon only when listening, the read succeeds and no preference is stored; otherwise nothing changes |
| Theme.ThemeManager.constructor | project/scripts/theme.js:3-23 | the icon reflects the starting attribute, the resolved theme is applied once, and the listener is registered exactly when `matchMedia` exists |
| Theme.ToggleTwiceRestores | project/scripts/theme.js:25-31 | two toggles restore the theme, leave it stored, and announce both themes |
| Theme.FailedSaveKeepsTheme | project/scripts/theme.js:63-69 | a failing save after a toggle keeps the applied theme and the storage |
| Particles.DensityCount | project/scripts/particles.js:13-18 | 30 particles below 768 pixels, 50 below 1024, 80 from there on |
| Particles.DensityMonotone | project/scripts/particles.js:13-18 | a wider viewport never gets fewer particles |
| Particles.DensityExamples | project/scripts/particles.js:13-18 | widths 500, 900 and 1400 give 30, 50 and 80 |
| Particles.Scaled | project/scripts/particles.js:37-38 | a position draw lies in [0, extent), or is 0 for an empty extent |
| Particles.Velocity | project/scripts/particles.js:39-40 | a velocity draw lies in [-0.25, 0.25) |
| Particles.Opacity | project/scripts/particles.js:42 | an opacity draw lies in [0.1, 0.6) |
| Particles.Spawn | project/scripts/particles.js:34-45 | a new particle has full life, every attribute in its range, and its position inside the viewport |
| Particles.Reset | project/scripts/particles.js:83-90 | a reset particle is at full life inside the viewport with new velocity and opacity in range; size and decay are kept |
| Particles.Stepped | project/scripts/particles.js:63-81 | an update moves and ages the particle and resets it exactly when it leaves the viewport or dies. With positive decay and life at most 1 it ends inside with life in (0, 1]; well-formedness is preserved |
| Particles.ShownOpacity | project/scripts/particles.js:80 | the opacity written to the element lies in (0, 0.6) |
| Particles.ParticleSystem.constructor | project/scripts/particles.js:3-23 | the count follows the width, that many particles exist, all well formed and inside the viewport, each particle is its spawn after one step, and a frame is requested |
| Particles.ParticleSystem.CreateParticles | project/scripts/particles.js:25-32 | the old particles are dropped and exactly `particleCount` new ones are spawned, each at full life |
| Particles.ParticleSystem.ResetParticle | project/scripts/particles.js:83-90 | only particle `i` changes, to its reset |
| Particles.ParticleSystem.UpdateParticle | project/scripts/particles.js:63-81 | only particle `i` changes, to its stepped state |
| Particles.ParticleSystem.Animate | project/scripts/particles.js:92-98 | one frame updates every particle exactly once, keeps the count, keeps them well formed, leaves them all inside the viewport and requests the next frame |
| Particles.ParticleSystem.Resize | project/scripts/particles.js:100-111 | rebuilds only when the count for the new width differs, and then spawns exactly that many |
| Particles.ParticleSystem.Destroy | project/scripts/particles.js:125-131 | cancels the frame and empties the particle list |
| Particles.RunFrames | project/scripts/particles.js:92-98 | any run of frames keeps the particles well formed and their number fixed, and leaves them inside the last viewport |
| HtmlText.EscapeChar | project/scripts/animations.js:612 | part of the corrected `splitText` of the Findings (the script does not escape): an escaped character holds no `<` or `>` |
| HtmlText.Escape | project/scripts/animations.js:612 | part of the corrected `splitText` of the Findings (the script does not escape): escaped text holds no `<` or `>`, so it opens and closes no tag |
| HtmlText.DecodeEscapeChar | project/scripts/animations.js:612 | an escaped character reads back as itself, whatever follows it |
| HtmlText.DecodeEscape | project/scripts/animations.js:612 | escaped text reads back as the text |
| HtmlText.DecodeChar | project/scripts/particles.js:311 | a single character of markup reads back as itself |
| TextReveal.NbspShown | project/scripts/particles.js:311 | the markup `&nbsp;` displays as a no-break space |
| TextReveal.SingleUnitShown | project/scripts/particles.js:308-311 | a code unit other than a space, alone in its span, displays as its character, or as U+FFFD when it is a surrogate |
| TextReveal.UnitMarkup | project/scripts/particles.js:311 | a code unit's span holds `&nbsp;` for a space and the unit itself otherwise; it holds no raw space and displays one character |
| TextReveal.RevealUnits | project/scripts/particles.js:309-312 | one span per code unit, in order, each the unit's markup |
| TextReveal.PrepareTextReveal | project/scripts/particles.js:306-313 | one span per code unit of the text (`.length` spans), in order, none holding a raw space, each displaying one character |
| TextReveal.DisplayedText | project/scripts/particles.js:306-313 | the text the reveal should display has one character per character of the original |
| TextReveal.RevealShowsText | project/scripts/particles.js:306-313 | the spans display the original text, spaces as no-break spaces, exactly when every character lies in the Basic Multilingual Plane |
| TextReveal.RevealBmp | project/scripts/particles.js:306-313 | a text of Basic Multilingual Plane characters is displayed as the text |
| TextReveal.RevealSplitsAstral | project/scripts/particles.js:308 | a character outside the Basic Multilingual Plane becomes two spans that each display U+FFFD |
| TextReveal.CharMarkup | project/scripts/particles.js:311 | a character's markup is `&nbsp;` exactly for a space and the character itself otherwise |
| TextReveal.CharSpan | project/scripts/particles.js:311 | the corrected reveal's span for a character holds no raw space and displays the character, a space as a no-break space |
| TextReveal.PrepareTextRevealByCharacter | project/scripts/particles.js:306-313 | the corrected reveal has one span per character, each displaying its character |
| TextReveal.RevealByCharacterShowsText | project/scripts/particles.js:306-313 | the corrected reveal displays the whole text, spaces as no-break spaces, whatever characters it holds |
| TextEffects.SplitType | project/scripts/animations.js:594 | the split type is `data-split`, or `chars` when it is missing or empty |
| TextEffects.PiecesJoin | project/scripts/animations.js:596-607 | joining the pieces with the type's separator (space, newline, or nothing) gives back the text's code units |
| TextEffects.PieceMarkup | project/scripts/animations.js:612 | a piece is written as it is, except that a lone space becomes `&nbsp;` |
| TextEffects.SplitText | project/scripts/animations.js:592-615 | one span per piece of the code-unit split, in order; span `i` has class `split-<type>` and a delay of `50 * i` milliseconds |
| TextEffects.WordsVerbatim | project/scripts/animations.js:599-600 | word pieces hold no space, so they are written verbatim and joined by spaces give back the text |
| TextEffects.SplitTextRewritesReferences | project/scripts/animations.js:612 | the one line `&amp;` is written unescaped and displays as `&` |
| TextEffects.SplitTextSplitsAstral | project/scripts/animations.js:606 | in `chars` mode a character outside the Basic Multilingual Plane becomes two spans that each display U+FFFD |
| TextEffects.CharacterPiecesAgree | project/scripts/animations.js:598-607 | cutting at characters gives the same pieces as the script for words and lines, and one piece per character for chars |
| TextEffects.SafePieceMarkup | project/scripts/animations.js:612 | an escaped piece displays as the piece itself, a lone space as a no-break space |
| TextEffects.SafeSpanMarkup | project/scripts/animations.js:612 | the code units of an escaped piece display as the piece |
| TextEffects.SplitTextEscaped | project/scripts/animations.js:592-615 | cutting at characters and escaping, span `i` displays piece `i` exactly, with the same classes and delays |
| TextEffects.Typewriter.constructor | project/scripts/animations.js:554-557 | the element is emptied, the text and its `.length` code units remembered, and the speed is `data-speed` or 100 |
| TextEffects.Typewriter.TypeChar | project/scripts/animations.js:567-578 | a step appends `charAt(index)`, the next code unit, or starts the blink once `index` reaches `.length`; the element always holds a prefix of the text's code units, so between the two halves of an emoji it holds a lone surrogate |
| TextEffects.Typewriter.TypeText | project/scripts/animations.js:564-582 | typing ends with all the code units written, so the element displays the whole text, and the blink started |
| Animations.TriggerAnimation | project/scripts/animations.js:38-47 | the callback throws, adding nothing, exactly when the type contains ASCII white space; otherwise it adds `animated` and `animate-<type>`. The delay is `IntOr(data-delay, 0)` and the duration `IntOr(data-duration, 600)`: the parsed attribute, or the default when it is missing, NaN or 0, so the duration is never 0 |
| Animations.ApplyHoverEffect | project/scripts/animations.js:66-83 | `lift`, `scale` and `rotate` set the transform, `glow` sets the box shadow, and other kinds change nothing |
| Animations.HoverLeaveRestores | project/scripts/animations.js:66-83 | leaving after entering gives the same style as leaving alone, with the neutral transform values |
| Animations.HoverLastEventDecides | project/scripts/animations.js:55-63 | after any run of `mouseenter`/`mouseleave` events the style is the one the last event alone writes: a final leave always restores the neutral value |
| Animations.StaggerListItems | project/scripts/animations.js:94-106 | child `i` gets delay `i * d` with `d` from `data-stagger` (100 by default) and the class `stagger-item`; other classes are kept |
| Animations.ValidateInput | project/scripts/animations.js:249-273 | exactly one of `valid` and `error` is present afterwards. `valid` is present exactly when the trimmed value passes the check for its type: `A@B.C` for `email`, at least 2 UTF-16 code units for `text`, non-empty otherwise |
| Animations.PaddedEmailDisagrees | project/scripts/animations.js:250 | an address that starts with a no-break space, which an e-mail input keeps, passes the live check (trimmed) but fails the form check (untrimmed) |
| Animations.Progress | project/scripts/animations.js:437 | progress is never negative |
| Animations.StartLoading | project/scripts/animations.js:432-448 | each width is min(progress, 100), so it lies in [0, 100], and widths never decrease. Loading finishes exactly when progress reaches 100, and then the last width is 100 |
| Animations.ProgressGrows | project/scripts/animations.js:437 | progress after fewer steps is never larger |

## Left out

- Browser plumbing: IntersectionObservers, event-listener registration, `setTimeout`, `setInterval`, `requestAnimationFrame`, the DOMContentLoaded start-up code, and the `themechange` listeners that restyle code blocks and charts. Only the bodies of the callbacks are modelled.
- Timer ordering in the project filter: the model records each card's state after its 100 ms or 300 ms timer has run. A second click inside that window, whose timers can interleave, is not modelled.
- Style strings (transforms, box shadows, `rgba` colours, `px` sizes) are written as plain values or omitted. Particle sizes and opacities are kept as numbers, not as the generated CSS.
- Floating point: particle coordinates, velocities and the loading progress are exact reals. IEEE rounding is not modelled. `parseInt` returns an integer of any size, where the script gets a double: a numeral beyond 2^53 would be rounded and one beyond about 1.8e308 would read as `Infinity`. `window.scrollY` is a double, taken here as an integer: section offsets and heights are integers, so the containment test in `updateActiveNav` answers the same for `scrollY` and its floor.
- Easing counters and progress bars, the magnetic, ripple, parallax and floating effects, cursor following, and the scroll-progress bar. These depend on wall-clock time and floating-point geometry.
- `throttle` and `debounce`: their timing is not modelled. The particle resize handler is modelled as the call the debounce eventually makes.
- `submitForm`, `showMessage`, the loading-screen markup, lazy images, the performance observer, the global error handlers, and the visibility and smooth-scroll handlers. These are I/O, markup or logging.
- HTML is modelled only as far as character references go (`&nbsp;`, `&amp;`, `&lt;`, `&gt;`). Tags inside text written to `innerHTML` are not parsed.
- Element identity: particles are values in a sequence, not DOM elements. Error slots, links, buttons, cards and list items are array entries, and `getElementById` searches the error slots only.
- Navigation.UpdateActiveNav: the script finds the link by pasting the section id into the selector `.nav__link[href="#<id>"]`, and the model looks up the literal href. The two agree for ids without `"`, `\` and line breaks (line feed, carriage return, form feed). For other ids the CSS tokenizer reads the selector differently: it may throw after the links have been cleared, or match other links. CSS selector parsing is not modelled.
- Theme.ThemeManager.LoadSavedTheme: nothing is left out here. The model reproduces the script, which does not refresh the icon when it loads the theme, so after start-up the icon reflects the attribute the page started with.
- Theme.ThemeManager.OnSystemThemeChange: the listener reads storage outside a `try`, so a failing read aborts it. The model leaves all state unchanged in that case; the thrown error itself is not modelled.
- Navigation.FilterClick: a card without `data-category` makes `includes` throw under any filter other than `all`. The model stops at that card and reports `completed == false`; the error itself is not modelled. A missing `data-filter` is looked up as the text `null`, as JavaScript's `includes(null)` does.
- Animations.StartLoading: the real loop always runs until progress reaches 100. The model consumes one draw per step and stops early if the draws run out, reporting `finished == false`.
- TextEffects.Typewriter.TypeText: the cursor blink that follows the typing is reduced to a flag. The 500 ms toggling of the border is not modelled.

## Findings

| source | as written | input that shows it | evidently intended | confidence | as-written member | corrected member |
|---|---|---|---|---|---|---|
| project/scripts/animations.js:612 | `splitText` writes each piece into `innerHTML` without escaping, so character references and markup in the element's text are interpreted | an element with `data-split="lines"` whose text is `&amp;` (the text as displayed, for example from markup `&amp;amp;`) ends up displaying `&` | every span displays its piece exactly | medium, not executed | TextEffects.SplitTextRewritesReferences | TextEffects.SplitTextEscaped |
| project/scripts/particles.js:308 | `prepareTextReveal` splits the text with `split('')`, which cuts it into UTF-16 code units, so a character outside the Basic Multilingual Plane is split into two spans holding one lone surrogate each | a revealed heading containing an emoji, such as `Hi 😀`, gets five spans, and the last two each display U+FFFD instead of the emoji | one span per character, as `Array.from(text)` splits, each displaying its character | medium, not executed | TextReveal.RevealSplitsAstral | TextReveal.RevealByCharacterShowsText |
| project/scripts/animations.js:606 | `splitText` in `chars` mode splits with `split('')`, with the same effect: two spans with a lone surrogate each per character outside the Basic Multilingual Plane | an element with `data-split="chars"` whose text is an emoji gets two spans that each display U+FFFD | one span per character, each displaying its character | medium, not executed | TextEffects.SplitTextSplitsAstral | TextEffects.SplitTextEscaped |
