# Portfolio page behaviour, modelled in Dafny

This project models the behaviour script of a portfolio web page (`script.js`). The page has four independent widgets:

- **Navigation menu.** A toggle control flips the body's `nav-open` class. A click on a navigation link always closes the menu. When the link is an in-page anchor (`#id`), the click first suppresses the browser's default jump and requests a scroll to the element with that id, if there is one.
- **Project filter.** Each project item has a category and a `hide` class. Each filter button has a filter value and an `active` class. A click on a button leaves that button as the only active one. It also hides exactly the items whose category the filter does not select; the filter `all` selects every item.
- **Lightbox.** This is a two-state machine, closed or open. Opening it copies the thumbnail's `src` and `alt`, locks background scrolling (`overflow: hidden`) and registers a keydown handler on the document. Closing it unlocks scrolling (`overflow: auto`) and removes the handler. Escape, the close control and a click on the overlay background all close it. A click on the image inside does not.
- **Contact form.** There are three fields: name, email and message. Each field has an `invalid` class and an error display. Each validator clears its field's error first, then sets it only when the check fails. Submitting runs all three validators. If all pass, it hands on the trimmed values, resets the fields and clears every error. Otherwise no value changes. The email check is the regular expression `^[^\s@]+@[^\s@]+\.[^\s@]+$`.

Page state is held in classes whose methods are the event handlers:

- `Dom.Document` holds the body flags and the document's keydown registration.
- `ProjectFilter.ProjectGrid` holds the `hide` and `active` flags as arrays.
- `ImageLightbox.Lightbox` holds the lightbox state.
- `ContactForm.FormField` and `ContactForm.Form` hold the form.

The pure parts are functions with lemmas about them:

- the `href` decision of the link handler;
- the whitespace class and `trim`;
- the email regular expression;
- the verdict of each validator.

The regular expression is modelled as the deterministic automaton that recognises it (`EmailFormat.Run`). That automaton is proved to accept exactly the strings `L + "@" + D + "." + T` in which `L`, `D` and `T` are non-empty and contain no whitespace and no `@`.

Files: `options.dfy`, `text.dfy`, `email_format.dfy`, `dom.dfy`, `nav_menu.dfy`, `project_filter.dfy`, `lightbox.dfy` and `contact_form.dfy`, one module each.

Two consequences of the code are easy to miss:

- The email pattern needs a dot after the `@` with at least one character on each side of it. So `a@.com` and `a@b.` are rejected. Dots are allowed anywhere else, so `a@b..` and `a.b@c.d.e` are accepted.
- The code makes exactly one filter button active only once a button has been clicked. Before the first click, the markup decides which buttons carry `active`. The grid's constructor takes those classes as given.

## Model

| member | source | states |
|---|---|---|
| Text.IsWhitespace | script.js:148 | The whitespace class shared by `\s` and `trim` contains neither `@` nor `.`, the two characters the email pattern splits at. |
| Text.Trim | script.js:158 | `trim` returns a string no longer than its input whose first and last characters are not whitespace. |
| Text.StartsWith | script.js:13 | `s.startsWith(p)` holds exactly when `s` is `p` followed by some string. |
| Text.TrimStartIsSuffix | script.js:158 | What is left after leading whitespace is dropped is a suffix of the input. Everything before it is whitespace, and it is empty or starts with a non-whitespace character. |
| Text.TrimEndIsPrefix | script.js:158 | What is left after trailing whitespace is dropped is a prefix of the input. Everything after it is whitespace, and it is empty or ends with a non-whitespace character. |
| Text.TrimIsCore | script.js:171 | `trim(s)` is a contiguous slice of `s` with only whitespace before and after it. Together with `Text.Trim`'s contract, which says neither end is whitespace, this pins the slice down. |
| Text.TrimUnique | script.js:212-214 | Any slice that has only whitespace around it and non-whitespace at both ends equals `trim(s)`. This is an independent characterisation of `trim`. |
| Text.TrimKeepsCleanEnds | script.js:212-214 | A string that neither starts nor ends with whitespace is unchanged by `trim`. |
| Text.TrimEmptyIff | script.js:158 | `trim(s) === ""` exactly when every character of `s` is whitespace. |
| Text.TrimIdempotent | script.js:158 | Trimming an already trimmed value changes nothing. |
| EmailFormat.RunStart | script.js:148 | The automaton ends in its accepting state exactly when the input has an `@` at some position `i > 0` with these properties. Everything before it is in `[^\s@]`. Everything after it is in `[^\s@]` and includes a dot that is neither the first nor the last character after the `@`. |
| EmailFormat.RunAcceptsIffShape | script.js:148 | The automaton accepts exactly the strings `L + "@" + D + "." + T` with `L`, `D` and `T` non-empty and free of whitespace and `@`. |
| EmailFormat.IsValidEmail | script.js:147-150 | `isValidEmail(s)` holds exactly when `s == L + "@" + D + "." + T` with `L`, `D` and `T` non-empty and free of whitespace and `@`. |
| EmailFormat.ValidEmailHasOneAt | script.js:148 | An accepted string contains no whitespace and exactly one `@`, which is neither first nor last. |
| EmailFormat.AcceptsPlainAddress | script.js:147-150 | `a@b.com` is accepted and has the shape. |
| EmailFormat.AcceptsSampleAddress | script.js:147-150 | `jo@x.com` is accepted. |
| EmailFormat.RejectsMissingDot | script.js:147-150 | `a@b` is rejected and does not have the shape. |
| EmailFormat.RejectsInnerSpace | script.js:147-150 | `a b@c.com` is rejected and does not have the shape. |
| Dom.Document.constructor | script.js:16-18 | The page starts with the given element ids, the menu closed, no `overflow` style set and no keydown handler registered. |
| Dom.Document.HasElement | script.js:16-18 | Definition, not a proved claim: the model's `getElementById(id)` lookup finds an element when `id` is non-empty and among the page's ids. `NavMenu.LinkDecision` states what the link handler does with it. |
| NavMenu.LinkDecision | script.js:12-21 | Default navigation is suppressed exactly when `href` starts with `#`. A scroll is requested exactly when, in addition, an element with id `href[1..]` exists, and it targets that id. |
| NavMenu.ExternalLinkIsFollowed | script.js:13 | A link that does not start with `#` is neither suppressed nor scrolled to. |
| NavMenu.MissingAnchorIsSilent | script.js:15-18 | `#id` with no element `id` is suppressed, requests no scroll and raises no error. |
| NavMenu.ContactAnchorScrolls | script.js:13-20 | `#contact` on a page with an element `contact` is suppressed and scrolls to `contact`. |
| NavMenu.ToggleClick | script.js:5-7 | A toggle click negates `nav-open` and leaves the scroll lock and the keydown registration alone. |
| NavMenu.LinkClick | script.js:10-25 | A link click returns the link decision and always leaves `nav-open` cleared, for external links too. It touches nothing else. |
| NavMenu.ToggleTwice | script.js:5-7 | Two toggle clicks restore the original `nav-open` value. |
| Dom.Document.AddKeydownListener | script.js:79 | After registering, the handler is registered once. Registering again adds nothing. |
| Dom.Document.RemoveKeydownListener | script.js:88 | After removal, no registration remains. |
| Dom.Document.SetOverflow | script.js:78 | Sets only the body's `overflow` style. |
| ProjectFilter.Shows | script.js:39 | Definition, not a proved claim: `shouldShow`, true when the filter is `all` or equals the category. `ProjectFilter.HiddenFlags` and `ProjectFilter.AllShowsEverything` state its consequences. |
| ProjectFilter.HiddenFlags | script.js:36-47 | The flag list has one entry per item. Item `i` is hidden exactly when the filter is neither `all` nor item `i`'s category. |
| ProjectFilter.AllShowsEverything | script.js:39 | The filter `all` hides no item. |
| ProjectFilter.UnknownFilterHidesEverything | script.js:39-45 | A filter that is neither `all` nor any item's category hides every item. |
| ProjectFilter.ActiveFlagsAt | script.js:55-56 | After clicking button `k`, button `j` is active exactly when `j == k`. |
| ProjectFilter.ExactlyOneActive | script.js:55-56 | After a click on any button, exactly one button is active. |
| ProjectFilter.ProjectGrid.constructor | script.js:29-30 | The grid starts with the items, buttons and classes the markup gives it. |
| ProjectFilter.ProjectGrid.FilterProjects | script.js:36-47 | Every item's `hide` flag is set exactly when the filter does not select its category. The new flags depend on the filter alone, not on the earlier flags. |
| ProjectFilter.ProjectGrid.ClickFilterButton | script.js:49-60 | The clicked button is the only active one, exactly one button is active, and the items' flags are those that filtering by that button's value gives. |
| ProjectFilter.ProjectGrid.FilterProjectsTwice | script.js:36-47 | Filtering twice by the same value leaves the same flags as filtering once. |
| ImageLightbox.Lightbox.constructor | script.js:64-67 | The lightbox starts closed, with no handler registered and scrolling not locked. |
| ImageLightbox.Lightbox.Open | script.js:73-80 | Opening sets `active`, copies the image's `src` and `alt` exactly, sets `overflow` to `hidden` and leaves the keydown handler registered. The registration is still a single one when the lightbox is opened again while open. `nav-open` is untouched. |
| ImageLightbox.Lightbox.Close | script.js:85-89 | Closing clears `active`, sets `overflow` to `auto` and deregisters the handler. It keeps `src` and `alt` and leaves `nav-open` untouched. |
| ImageLightbox.Lightbox.HandleKeydown | script.js:95-99 | Escape closes the lightbox. Any other key changes nothing. |
| ImageLightbox.Lightbox.KeyPressed | script.js:79-99 | The document calls the handler only while it is registered. So a key changes something only when the lightbox is open and the key is Escape, and then the lightbox closes. |
| ImageLightbox.Lightbox.OverlayClick | script.js:108-113 | A click whose target is the overlay closes the lightbox. A click on the inner image or the close control changes nothing. |
| ImageLightbox.Lightbox.CloseControlClick | script.js:105-113 | A click on the close control closes the lightbox. The same click then reaching the overlay handler changes nothing more. |
| ImageLightbox.Lightbox.OpenTwiceCloseOnce | script.js:73-89 | Two opens and one close leave no handler registered. Registrations do not accumulate, and the second image is the one kept. |
| ContactForm.FieldError | script.js:156-192 | A blank value fails in every field. A failing name gets `Name cannot be empty.`, a failing message gets `Message cannot be empty.`, and a failing email gets one of the two email messages. |
| ContactForm.RequiredFieldVerdict | script.js:156-192 | A name or message fails exactly when it is all whitespace. It then fails with its own message, `Name cannot be empty.` or `Message cannot be empty.` |
| ContactForm.EmailFieldVerdict | script.js:169-179 | An all-whitespace email gets `Email cannot be empty.`, which takes precedence over the format check. Any other value gets `Please enter a valid email address.` exactly when its trimmed form lacks the email shape. An email value passes exactly when its trimmed form has the shape. |
| ContactForm.EmptyEmailIsReportedEmpty | script.js:171-173 | `""` gets `Email cannot be empty.` |
| ContactForm.EmailWithoutDotIsMalformed | script.js:174-176 | `a@b` gets `Please enter a valid email address.` |
| ContactForm.EmailWithSpaceIsMalformed | script.js:174-176 | `a b@c.com` gets `Please enter a valid email address.` |
| ContactForm.PlainEmailPasses | script.js:169-179 | `a@b.com` passes. |
| ContactForm.PaddedEmailPasses | script.js:171-174 | The surrounding blanks are trimmed before the format check, so `" a@b.com\n"` passes. |
| ContactForm.SampleValuesPass | script.js:203-215 | `Jo`, `jo@x.com` and `hi` are already trimmed and pass their validators. |
| ContactForm.SubmitSample | script.js:199-227 | Submitting `Jo`, `jo@x.com` and `hi` hands on exactly those values and leaves all three fields empty and unmarked. |
| ContactForm.FormField.constructor | script.js:117-119 | A field starts with its value, unmarked and with an empty error display. |
| ContactForm.FormField.SetError | script.js:126-130 | Marks the field `invalid` and displays the given message. The value is unchanged. |
| ContactForm.FormField.ClearError | script.js:136-140 | Unmarks the field and empties its display. The value is unchanged. |
| ContactForm.Form.constructor | script.js:116-119 | The form holds three distinct fields: name, email and message. |
| ContactForm.Form.ValidateName | script.js:156-163 | Returns true exactly when the name passes. The field displays exactly the name verdict: unmarked with an empty display on success, marked with `Name cannot be empty.` on failure. The value is unchanged, so validating again gives the same state. |
| ContactForm.Form.ValidateEmail | script.js:169-179 | Returns true exactly when the email passes. The field shows exactly the email verdict. The empty check comes before the format check. The value is unchanged. |
| ContactForm.Form.ValidateMessage | script.js:185-192 | Returns true exactly when the message passes. The field shows exactly the message verdict. The value is unchanged. |
| ContactForm.Form.Submit | script.js:199-227 | A record is handed on exactly when all three fields passed beforehand. The record holds the three trimmed values, and then every value is reset and every error cleared. Otherwise no value changes, and each field shows its own freshly computed verdict. |

## Left out

- Element lookup (`querySelector`, `querySelectorAll`, `getElementById` at setup) and the wiring of listeners at load time are not modelled. The elements are class fields and constructor arguments. The handlers are methods that a caller invokes in the order events arrive. The model assumes the markup provides every element the script looks up. Without that assumption, some failures would happen at load and others only later, when an event arrives:
  - A missing toggle, close control, lightbox, form field or form fails at load, when `addEventListener` is called on it (script.js:5, 105, 108, 195-197, 199). Navigation links, filter buttons, project items and thumbnails are gathered with `querySelectorAll`. A missing one only shortens the list, and the `forEach` at script.js:9, 49 and 101 registers fewer handlers, with no failure.
  - A missing `#lightbox-img` fails only inside `openLightbox` at script.js:76. By then the overlay has already been given the `active` class (script.js:75).
  - A missing error display after a field (`nextElementSibling`, script.js:128 and 138) fails only when that field's validator runs.
- The model assumes an initial page state that the script never sets itself: the body has no `nav-open` class and no inline `overflow: hidden`, the overlay has no `active` class, and every form field is unmarked with an empty error display. `Dom.Document.constructor`, the `requires` of `ImageLightbox.Lightbox.constructor` and `ContactForm.FormField.constructor` build this in. A page whose body or overlay started otherwise would begin outside `Lightbox.Valid()`.
- The browser's single-threaded event loop is not modelled. Each handler runs to completion, so running one method after another is what the model provides.
- `scrollIntoView({ behavior: "smooth" })` is not modelled as an animation. The model records only that a scroll to a given id was requested (`LinkEffect.scrollTo`).
- The visual effects of the `hide`, `active`, `nav-open` and `invalid` classes and of the `overflow` style are not modelled.
- `console.log` and `alert` in the submit handler are not modelled as output. Their effect is the record that `Submit` returns.
- `event.preventDefault()` in the submit handler runs on every submission. It has no modelled output.
- `form.reset()` is modelled as setting all three values to the empty string, as if the fields had no default values. A default value in the markup would be restored instead.
- The regular-expression engine itself is not modelled. The expression is modelled as the automaton it denotes.
- `\s` and `trim` share one whitespace class, `Text.IsWhitespace`: ECMAScript WhiteSpace and LineTerminator, with the space separators listed as of current Unicode.
- Dafny characters are Unicode scalar values, while JavaScript strings are UTF-16 code units. Every whitespace character is in the Basic Multilingual Plane, and both halves of a surrogate pair fall in `[^\s@]`. So the verdicts agree for every well-formed string. Lone surrogates are not representable.
- Every project item is assumed to carry `data-category` and every filter button `data-filter`. Without the attribute, `dataset` yields `undefined` (script.js:38, 52). A button without `data-filter` would then show exactly the items without `data-category`, because `undefined === undefined` at script.js:39. Categories and filters are plain strings in the model, so it cannot express this.
- A navigation link without an `href` attribute would make `getAttribute` return `null` and the handler throw. The model assumes every link has an `href` string.
- An element whose `id` is empty never matches `getElementById("")`, so `href="#"` requests no scroll (`Dom.Document.HasElement`).
- The `input` events themselves are not modelled. The user's typing assigns `FormField.value`, and the validators are the input listeners.
