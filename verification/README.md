# Portfolio site: verified model of its client-side logic

This project models the small amount of logic inside a single-page personal
portfolio site written in React. Each piece is a pure Dafny function over
immutable values, and the properties the components rely on are proved
about it.

- **Navigation** (`navigation.dfy`). On every scroll event, the section
  tracker adds a 100-pixel look-ahead to the scroll offset. It then walks the
  seven navigation ids in declaration order. The first section whose
  half-open range `[offsetTop, offsetTop + offsetHeight)` contains that probe
  becomes active. `home` always spans `[0, body height)`. A section whose
  element is missing is skipped. If nothing matches, the previous section
  stays active. This module also models the mobile menu flag and what
  `scrollToSection` asks the browser to do.
- **Projects** (`projects.dfy`). This covers the project and filter tables,
  the category filter, and which filter button is shown as selected. It also
  covers the card initials, `title.split(' ').map(w => w[0]).join('')`. The
  model follows JavaScript's `split`, so empty pieces are kept and add no
  initial.
- **Skills** (`skills.dfy`). This covers the skill and category tables and
  the colour lookup `find(...)?.color || default`. An empty colour string
  would also fall back to the default, as `||` does in the source.
- **Contact** (`contact.dfy`). This covers the four-field form record, the
  keyed update run on every keystroke, the reset on submit, and the browser's
  `required` check that decides whether the submit handler runs at all.
- **Hero** (`hero.dfy`). This covers the typewriter, which appends one
  character of the headline per tick.

`common.dfy` holds `Option` and the `Distinct` predicate used for React keys.

The browser is passed in as values, not read:

- The scroll offset and the page geometry arrive as a `Layout`: the body
  height plus a map from element id to `offsetTop`/`offsetHeight`.
- Whether `querySelector` found an anchor is a boolean.
- Whether the browser accepted the e-mail address is a boolean.
- A timer tick is one call of `Hero.Step`.

The contact form sends nothing. Its submit handler only shows a "Message
Sent!" toast and clears the fields (`src/components/Contact.tsx:24-32`).
There is no request to a mail provider, no in-flight flag and no failure
path that keeps the fields, so none of these is modelled.

## Model

| member | source | states |
|---|---|---|
| Navigation.NavItems | src/components/Navigation.tsx:10-18 | seven entries, `home` first with href `#`, every other href is `#` followed by the entry's id |
| Navigation.SectionIds | src/components/Navigation.tsx:22 | the scanned ids are the entries' ids in declaration order, and no id repeats |
| Navigation.Probe | src/components/Navigation.tsx:23 | the probe sits exactly 100 pixels below the scroll offset |
| Navigation.Bounds | src/components/Navigation.tsx:26-29 | `home` spans `[0, body height)`; any other section has a range iff its element exists, starting at its top and as long as its height |
| Navigation.FirstCovering | src/components/Navigation.tsx:25-36 | no result iff no section covers the probe; otherwise the result is a covering section and no earlier section covers it. A section covers the probe (`Covers`) when its element exists and the probe lies in its half-open range from top (0 for `home`) to top plus height, as tested at line 31 |
| Navigation.HandleScroll | src/components/Navigation.tsx:20-37 | no match keeps the previous section; otherwise the new section is the first covering one in scan order; a probe inside the body always selects `home` |
| Navigation.OnScroll | src/components/Navigation.tsx:21-37 | the loop with early `break` computes the same section as the reference scan |
| Navigation.FirstCoveringIsSelected | src/components/Navigation.tsx:31-33 | a covering section with no covering predecessor is the one the scan returns |
| Navigation.EarlierSectionWins | src/components/Navigation.tsx:25-34 | where two sections overlap at the probe, the later-declared one is never selected |
| Navigation.SoleCoveringSectionIsActive | src/components/Navigation.tsx:28-33 | a probe covered by exactly one section selects that section |
| Navigation.InitialState | src/components/Navigation.tsx:7-8 | the menu starts closed and the active section is `home`, the first navigation id |
| Navigation.ScrollToSection | src/components/Navigation.tsx:43-53 | the menu is always closed afterwards; `#` scrolls to the top; another href scrolls into view iff its element was found; the active section is not touched |
| Navigation.ToggleMenu | src/components/Navigation.tsx:106 | the menu button negates `isOpen` and leaves the active section alone |
| Navigation.ToggleTwice | src/components/Navigation.tsx:106 | pressing the menu button twice restores the state |
| Navigation.ActiveIsAlwaysASection | src/components/Navigation.tsx:8-53 | from a state whose active section is a navigation id, any sequence of scrolls, menu presses and clicks keeps it one |
| Navigation.ReachableActiveIsASection | src/components/Navigation.tsx:8-53 | every state reachable from mount highlights a navigation id |
| Navigation.OneEntryHighlighted | src/components/Navigation.tsx:83-91 | at most one bar entry is drawn highlighted |
| Navigation.ExactlyOneEntryHighlighted | src/components/Navigation.tsx:83-91 | when the active id is a navigation id, as in every reachable state, some bar entry is highlighted and no other is |
| Projects.AllProjects | src/components/Projects.tsx:16-83 | six projects with distinct ids; every category has a filter button and none is `all` |
| Projects.Filters | src/components/Projects.tsx:85-91 | five buttons, `all` first, values distinct |
| Projects.OfCategory | src/components/Projects.tsx:95 | every kept project has the category; every project of the category is kept; the result is an order-preserving subsequence; no project of the category gives an empty result |
| Projects.FilterProjects | src/components/Projects.tsx:93-95 | `all` returns the list unchanged; any other value keeps every copy of each project of that category and nothing else, in the original order; a value naming no category yields nothing |
| Projects.OfCategoryCounts | src/components/Projects.tsx:95 | each project occurs in the result as often as in the table if it has the category, and not at all otherwise |
| Projects.ShownKeysDistinct | src/components/Projects.tsx:141-143 | whatever the filter, the shown cards have distinct keys |
| Projects.InitialFilter | src/components/Projects.tsx:14 | the initial selection is the first button's value, `all` |
| Projects.ClickFilter | src/components/Projects.tsx:123 | after a click the clicked button is the selected one |
| Projects.LastClickWins | src/components/Projects.tsx:123 | after a series of clicks the selection is the last button clicked |
| Projects.SelectionIsAlwaysAButton | src/components/Projects.tsx:14-123 | after any clicks from mount, some filter button is drawn as active |
| Projects.AtMostOneActiveButton | src/components/Projects.tsx:119-128 | two buttons drawn as active are the same button |
| Projects.Split | src/components/Projects.tsx:156 | `split(' ')` yields at least one piece, and no piece contains a space |
| Projects.JoinSplit | src/components/Projects.tsx:156 | joining the pieces with single spaces gives back the title |
| Projects.SplitJoin | src/components/Projects.tsx:156 | splitting a join of space-free words gives back the words |
| Projects.FirstChar | src/components/Projects.tsx:156 | an empty piece contributes nothing, any other piece contributes its first character |
| Projects.Initials | src/components/Projects.tsx:156 | the card's initials are the first characters of the non-empty space-separated pieces of the title, in order, whatever the spacing: one per non-empty piece, so never more than there are pieces, and none is a space |
| Projects.InitialsContent | src/components/Projects.tsx:156 | for any pieces, including empty ones from leading, trailing or doubled spaces, a non-empty piece's first character is the initial right after those of the non-empty pieces before it |
| Projects.InitialsInOrder | src/components/Projects.tsx:156 | the same position statement for every non-empty piece at once |
| Projects.InitialsOfWords | src/components/Projects.tsx:156 | one initial per non-empty piece, so never more initials than pieces; with no empty pieces, initial k is the first character of word k |
| Projects.TitleInitials | src/components/Projects.tsx:156 | for words joined by single spaces, the initials are the words' first characters and their number is the word count |
| Projects.InitialsHaveNoSpace | src/components/Projects.tsx:156 | no initial is a space |
| Projects.TravelBookingEngineInitials | src/components/Projects.tsx:156 | the first card's initials are `TBE` |
| Skills.AllSkills | src/components/Skills.tsx:10-23 | twelve skills with distinct names; every level is within 0..100; every category is listed |
| Skills.AllCategories | src/components/Skills.tsx:25-34 | eight categories with distinct names; no colour is empty or equal to the fallback colour |
| Skills.Find | src/components/Skills.tsx:37 | no result iff no category has the name; otherwise the first category with that name |
| Skills.CategoryColor | src/components/Skills.tsx:36-38 | the default `from-primary to-secondary` when nothing matches; otherwise the first match's colour, or the default when that colour is empty; never empty |
| Skills.UniqueMatchColor | src/components/Skills.tsx:25-37 | with distinct names, a category with a non-empty colour gets exactly its own colour |
| Skills.ListedSkillsUseTheirCategoryColor | src/components/Skills.tsx:11-37 | every listed skill is drawn in its own category's colour, never the default |
| Contact.EmptyForm | src/components/Contact.tsx:17-22 | all four fields start empty |
| Contact.FieldOf | src/components/Contact.tsx:89-134 | an input name maps to the field stored under that key, and names no field otherwise |
| Contact.FieldNameRoundTrip | src/components/Contact.tsx:89-134 | every field's key leads back to that field |
| Contact.InputNames | src/components/Contact.tsx:89-134 | the inputs' names are distinct and are exactly the four record keys |
| Contact.HandleInputChange | src/components/Contact.tsx:34-39 | the changed field holds the new value and every other field is unchanged |
| Contact.HandleInputEvent | src/components/Contact.tsx:34-39 | the same, reached through the event's target name |
| Contact.LastWriteWins | src/components/Contact.tsx:35-38 | writing a field twice keeps only the second value |
| Contact.DistinctFieldsCommute | src/components/Contact.tsx:35-38 | edits to different fields commute |
| Contact.RewriteIsNoOp | src/components/Contact.tsx:35-38 | writing back a field's own value changes nothing |
| Contact.HandleSubmit | src/components/Contact.tsx:24-32 | every field is empty after submit, whatever the fields held before: submit returns the form to its state on mount |
| Contact.SubmitIdempotent | src/components/Contact.tsx:31 | two submits leave the same state as one |
| Contact.PressSend | src/components/Contact.tsx:85-135 | the handler runs iff all four fields are non-empty and the e-mail is accepted (`MaySubmit`, the `required` attributes at lines 95, 107, 120 and 133); if it runs, the fields are cleared, and otherwise the form is unchanged |
| Hero.Start | src/components/Hero.tsx:15-26 | the display is cleared, typing starts at index 0 and the first callback is pending |
| Hero.Step | src/components/Hero.tsx:18-24 | while characters remain, the tick appends `text[index]`, increments the index and schedules the next callback; the callback that finds no character left changes nothing and schedules nothing; with no callback pending a tick does nothing; it keeps the display equal to the typed prefix and a callback pending while characters remain |
| Hero.IdleIsStable | src/components/Hero.tsx:19-23 | once no callback is pending, no number of ticks changes the state |
| Hero.TicksAdvance | src/components/Hero.tsx:18-23 | k ticks from a consistent state with a callback pending advance by k characters, capped at the text's length; a callback is still pending exactly while the index plus k does not exceed the length |
| Hero.TypedPrefix | src/components/Hero.tsx:15-21 | after k ticks the display is the text's first `min(k, length)` characters and never longer than the text |
| Hero.TypingCompletes | src/components/Hero.tsx:11-22 | after as many ticks as the text has characters the whole text shows and one last no-op callback is still pending; after one more tick the text is unchanged and nothing is pending |
| Hero.FinishedIsStable | src/components/Hero.tsx:19 | once the index reaches the end, further ticks leave the display and the index unchanged |
| Hero.Type | src/components/Hero.tsx:14-26 | the loop driven tick by tick shows the text's first `min(k, length)` characters, and a callback is still pending iff k does not exceed the length |
| Hero.HeadlineTyped | src/components/Hero.tsx:11-22 | the 34-character headline shows in full after 34 ticks with one callback still pending; after the 35th tick none is |

## Left out

- DOM reads are not modelled. This covers `window.scrollY`, `document.body`, `getElementById`, `offsetTop`/`offsetHeight` and `querySelector`. The values they would return are parameters instead.
- Browsers can report a fractional `scrollY`; the model takes an integer offset because it has no floating point.
- Registering and removing the scroll listener (`src/components/Navigation.tsx:39-40`) is left out. It is lifecycle plumbing, not logic.
- Smooth scrolling itself is left out: `scrollTo`, `scrollIntoView` and the scroll events it causes. `ScrollToSection` only returns the request it would make.
- The typewriter's `setTimeout` delays (1500 ms start, 100 ms per character) are left out. Ticks are explicit calls.
- `Hero.Start` does not model the `if (element)` guard. Without a mounted element nothing happens at all.
- The contact toast is left out. It is a notification side effect.
- Contact.HandleInputChange: the source's computed key would add a new property for an input name outside the four keys. The model takes a `Field`, because every input in the form carries one of the four keys (`Contact.InputNames`).
- Contact.PressSend: the browser's e-mail syntax rules are a boolean parameter. Those rules belong to the browser, not to this code.
- `handleDownloadCV` in `src/lib/utils.ts` is left out. It only clicks a synthetic download anchor.
- `cn` is left out. It wraps `clsx`/`tailwind-merge`, which are not part of this model.
- Animation, random particle positions and trigonometric star positions are left out. They are floating-point and cosmetic.
- Image and link placeholders, project descriptions and icons are not modelled. Nothing is computed from them.
- `About.tsx`, `Experience.tsx`, `Awards.tsx` and `Footer.tsx` are left out. They are static markup, and `Footer.tsx` only reads the clock for the year.
- JavaScript strings are sequences of UTF-16 code units, and the model uses Dafny characters. Every literal in the tables is ASCII.
