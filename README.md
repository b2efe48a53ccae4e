# BrightTours booking logic in Dafny

BrightTours is a brochure website for a car-and-bus rental business. This project models the
three parts of the site that contain logic, and proves properties about each:

- **The contact page's booking inquiry** (`src/pages/Contact.tsx`).
  - The zod `formSchema` that each of the eight fields must pass.
  - The per-field errors a submission computes and the form then displays, and how they are re-validated as fields change.
  - The vehicle pre-selected through navigation state.
  - The browser's own checks, which can stop the submit event before the form's handler runs: the passenger count's `<input type="number" min="1">` must hold an acceptable number, and the travel date's `<input type="date">` must not hold a partly typed date.
  - `generateWhatsAppMessage`: the 14 message lines, joined by a line feed and passed through `encodeURIComponent`.
  - The `https://wa.me/919035119555?text=` deep link that `handleWhatsApp` opens.
- **The navigation bar's scroll handler** (`src/components/layout/Navbar.tsx`).
  - `isScrolled`.
  - The scroll-spy loop over the home page's `about` and `services` sections.
  - `isActiveLink`.
- **The fleet cards** (`src/components/home/ServicesSection.tsx`): the `vehicles` constant, and the renaming of a card's name into the vehicle that its "Book Now" link pre-selects.

Modules:

- `Results` holds `Option` and `Result`.
- `JsText` models JavaScript strings.
  - A string is a sequence of UTF-16 code units. The length zod checks is therefore the code-unit count.
  - It defines code points, surrogates and well-formedness as in ECMA-262 (CodePointAt, IsStringWellFormedUnicode).
  - It defines `join` and `split` on a separator, with their round trips proved.
- `UriCodec` is `encodeURIComponent` (section 19.2.6.4 of ECMA-262), following the Encode operation of section 19.2.6.5.
  - Unreserved code units are copied. Every other code point is written as its UTF-8 octets, escaped as `%XY` with uppercase hex (percent-encoding as in section 2.1 of RFC 3986).
  - An unpaired surrogate throws `URIError`.
  - Its partner is `decodeURIComponent` (section 19.2.6.2, through the Decode operation of section 19.2.6.6 with an empty reserved set). Decode is proved to invert Encode.
- `NumberInput` is that browser check: the text must be empty, or a valid floating-point number as the HTML standard defines one (section 2.3.4.3), whole and at least 1.
- `Contact` holds the form, its validation, the message, the deep link and submission. `ParseMessage` and `ParseWhatsAppUrl` read a message and a link back into a form. They are the partners against which the serialiser's round trips are stated.
- `Navbar` holds the links and the scroll spy.
  - `ScrollSpy` is the `for … of` loop, written as a Dafny loop. It is proved against the specification function `LastQualifying`.
  - `NavbarState` is a class holding the two state variables that `handleScroll` writes.
- `Services` holds the fleet and the booking renaming.

The DOM geometry is a parameter: a map from section id to the integer top and bottom of its bounding rectangle. A missing id is a section that `getElementById` does not find. The window's scroll offset is an integer parameter as well.

## Model

| member | source | states |
|---|---|---|
| JsText.CodePointAt | src/pages/Contact.tsx:86 | the code point read at the start of a string: its length is 1 or 2 units; it is unpaired exactly at a lone surrogate; otherwise it is a scalar value whose UTF-16 encoding is the units read |
| JsText.WellFormedConcat | src/pages/Contact.tsx:74-81 | appending to text that does not end in a surrogate keeps it well formed exactly when the appended text is well formed |
| JsText.SplitJoin | src/pages/Contact.tsx:86 | splitting the joined lines on the separator gives back the lines, when no line contains the separator |
| JsText.JoinSplit | src/pages/Contact.tsx:86 | joining the pieces of a split on the same separator gives back the text |
| JsText.WellFormedJoin | src/pages/Contact.tsx:86 | lines joined by a line feed form well-formed text exactly when every line is well formed |
| UriCodec.Utf8Encode | src/pages/Contact.tsx:86 | a non-surrogate code point becomes 1 to 4 octets: one octet (the code point itself) below U+0080, two up to U+07FF, three up to U+FFFF, four above; every octet after the first is a continuation octet 10xxxxxx |
| UriCodec.Utf8EncodingPasses | src/pages/Contact.tsx:86 | the UTF-8 encoding of every scalar value from U+0080 on passes the decoder's independent validity test (lead octet announces the length, continuation octets, shortest form, no surrogate, at most U+10FFFF) and reads back as that value |
| UriCodec.Utf8DecodeReencodes | src/pages/Contact.tsx:86 | conversely, every 2 to 4 octets that pass that test are exactly the UTF-8 encoding of the value read, so the test accepts the encoder's multi-octet outputs and nothing else |
| UriCodec.DecodeEncode | src/pages/Contact.tsx:86 | whenever encodeURIComponent returns, decodeURIComponent of its output is the input text |
| UriCodec.EncodeThrowsIffIllFormed | src/pages/Contact.tsx:86 | encodeURIComponent throws URIError exactly when the text holds an unpaired surrogate |
| UriCodec.EncodeOutputForm | src/pages/Contact.tsx:86 | every output is a sequence of unreserved code units and `%XY` triples with uppercase hex digits |
| UriCodec.EscapedFormUnits | src/pages/Contact.tsx:86 | text of that form contains only `A–Z a–z 0–9 - _ . ! ~ * ' ( )`, `%` and uppercase hex digits |
| Contact.WithValue | src/pages/Contact.tsx:62-66 | setting one field gives it the new value and leaves every other field as it was |
| Contact.FullNameVerdict | src/pages/Contact.tsx:13 | full_name passes exactly when it has 2 to 100 code units; a shorter value reports the minimum 2 with its message, a longer one the maximum 100 |
| Contact.PhoneVerdict | src/pages/Contact.tsx:14 | phone passes exactly when it has 10 to 15 code units, with no check on what they are; a shorter value reports the minimum 10 with its message, a longer one the maximum 15 |
| Contact.RequiredFieldVerdict | src/pages/Contact.tsx:15-18 | trip_type, vehicle_pref, seats and travel_date are rejected exactly when empty, with a too-small issue |
| Contact.LocationsUnchecked | src/pages/Contact.tsx:19-20 | pickup_location and drop_location pass whatever they hold, the empty string included |
| Contact.ErrorsArePerField | src/pages/Contact.tsx:12-21 | the errors map has an entry exactly for each failing field, and that entry is the issue the field's schema reports |
| Contact.ErrorsAt | src/pages/Contact.tsx:255-256 | after a submission, one field shows an error exactly when it fails, and the error shown is its schema's first issue |
| Contact.ErrorsEmptyIff | src/pages/Contact.tsx:242 | the errors map is empty exactly when every field passes |
| Contact.ErrorsAtOtherField | src/pages/Contact.tsx:12-21 | another field's error entry, and whether it has one, do not depend on this field's value |
| Contact.ErrorsIsolated | src/pages/Contact.tsx:12-21 | changing one field leaves every other field's error as it was; the changed field has an error exactly when its new value fails |
| Contact.ErrorsUnchangedByPassingEdit | src/pages/Contact.tsx:12-21 | replacing a passing value by another passing value leaves the whole errors map unchanged |
| Contact.VehicleOptionsVerdict | src/pages/Contact.tsx:25-30 | every vehicle option passes the vehicle_pref check; the empty placeholder does not |
| Contact.DefaultValuesVerdict | src/pages/Contact.tsx:38-58 | submitting a fresh form fails on full_name, phone, trip_type, seats and travel_date, and also on vehicle_pref exactly when navigation pre-selected none |
| Contact.ApplyPreselectionEffect | src/pages/Contact.tsx:62-66 | the effect sets vehicle_pref to a non-empty pre-selection, which then passes, and changes no other field; an empty one changes nothing |
| Contact.MessageSplitsIntoLines | src/pages/Contact.tsx:69-86 | with no line feed inside a field, the joined message splits back into exactly its lines |
| Contact.MessageLayout | src/pages/Contact.tsx:69-86 | the message is 14 lines: greeting, blank, header, blank, the Name, Phone, Trip Type, Vehicle, Passengers, Date, From and To lines, each its label followed by the value unchanged, blank, closing |
| Contact.LineIndex | src/pages/Contact.tsx:74-81 | each field has a line among the eight field lines, and it is that field's line |
| Contact.ParseMessageRoundTrip | src/pages/Contact.tsx:68-87 | parsing a form's message text gives back the form |
| Contact.ParsedLines | src/pages/Contact.tsx:69-84 | the message lines of a parsed form are exactly the lines that were parsed |
| Contact.ParseMessageSound | src/pages/Contact.tsx:69-86 | any text the parser accepts is exactly the message of the form it returns |
| Contact.MessageTextWellFormed | src/pages/Contact.tsx:69-86 | the message text is well formed exactly when every field value is |
| Contact.WhatsAppUrlThrowsIff | src/pages/Contact.tsx:86-92 | building the link throws URIError exactly when some field holds an unpaired surrogate |
| Contact.WhatsAppUrlShape | src/pages/Contact.tsx:86-92 | the link is the prefix `https://wa.me/919035119555?text=` followed by escaped-form text that decodes to exactly the joined message |
| Contact.WhatsAppUrlRoundTrip | src/pages/Contact.tsx:68-93 | for well-formed fields with no line feed, the link is built and reads back as the submitted form |
| Contact.SubmitAllOrNothing | src/pages/Contact.tsx:95-97 | nothing is submitted exactly when the browser's own checks fail (it rejects the passenger count, or the date box holds a partly typed date); otherwise submission is blocked exactly when some field fails, and then shows an error for each failing field and no other; a window opens only on the generated link |
| Contact.SubmitOpensLinkOfForm | src/pages/Contact.tsx:89-97 | a valid, well-formed form opens a window exactly when the browser's own checks pass, and the link reads back as that form |
| Contact.SubmitThrowsOnIllFormedText | src/pages/Contact.tsx:89-97 | a valid form makes onSubmit throw exactly when the browser lets it through and a field holds an unpaired surrogate |
| Contact.SeatsInputStopsSubmit | src/pages/Contact.tsx:326-332 | a passenger count of "0", "2.5" or any negative number means the form is not submitted at all, whatever the date box holds |
| Contact.RevalidationKeepsErrorsCurrent | src/pages/Contact.tsx:47-59 | after a submission, re-validating only the field that changed leaves the shown errors equal to the errors of the current values |
| Contact.SampleInquiryAccepted | src/pages/Contact.tsx:12-21 | the inquiry with Asha Rao, a 10-digit phone, Wedding, Luxury Bus, 45 passengers, 2025-12-10, Bidar and Hyderabad passes every check |
| Contact.SampleSeatsAccepted | src/pages/Contact.tsx:326-332 | the sample's passenger count "45" is one the browser lets through |
| Contact.SampleWithoutTripTypeBlocked | src/pages/Contact.tsx:15 | the same inquiry without a trip type is blocked, and its only error is the trip type's |
| NumberInput.DigitsAccepted | src/pages/Contact.tsx:326-332 | a plain run of digits passes the number input's check exactly when it denotes at least 1 |
| NumberInput.DigitsParse | src/pages/Contact.tsx:326-332 | a plain run of digits is read as the number it denotes, with no sign and no exponent |
| NumberInput.FractionParse | src/pages/Contact.tsx:326-332 | "w.f" is read as the digits of w and f together, scaled down by the length of f |
| NumberInput.FractionRejected | src/pages/Contact.tsx:326-332 | "w.f" made of digits, with no sign and no exponent, whose last fraction digit is not 0, fails the step check |
| NumberInput.NegativeRejected | src/pages/Contact.tsx:326-332 | a text starting with "-" never passes, "-0" included |
| Navbar.ScrollSpy | src/components/layout/Navbar.tsx:24-37 | the loop's result is the capitalised id of the last section that qualifies, or "Home" when none does |
| Navbar.LastQualifyingRule | src/components/layout/Navbar.tsx:25-37 | with no qualifying section the choice is "Home"; otherwise it is the capitalised id of the last qualifying section, so later sections win |
| Navbar.HomePageScrollSpy | src/components/layout/Navbar.tsx:23-40 | on "/", "Services" wins when services straddles line 150, then "About" when about does, and otherwise "Home"; a missing section never qualifies |
| Navbar.CapitalizedSectionsNameLinks | src/components/layout/Navbar.tsx:5-10 | the capitalised section ids are "About" and "Services", the names of the second and third links |
| Navbar.NavbarState.constructor | src/components/layout/Navbar.tsx:14-16 | the initial state is not scrolled, with "Home" active |
| Navbar.NavbarState.HandleScroll | src/components/layout/Navbar.tsx:19-46 | afterwards isScrolled holds exactly when scrollY > 50, and the active section is the scroll spy's choice on "/", "Contact" on "/contact", and "" elsewhere |
| Navbar.ActiveSectionNamesLink | src/components/layout/Navbar.tsx:41-45 | the active section is empty exactly off "/" and "/contact"; otherwise it is a link's name; on "/contact" it is the Contact link's name |
| Navbar.NavLinkNamesDistinct | src/components/layout/Navbar.tsx:5-10 | the four link names are distinct and non-empty |
| Navbar.AtMostOneActiveLink | src/components/layout/Navbar.tsx:85-87 | at most one link is active, and none while the active section is empty |
| Services.BookingVehicleRenamesOnlyInnova | src/components/home/ServicesSection.tsx:117 | "Innova Crysta / SUV" becomes "Innova/SUV", every other name is passed on unchanged, and no result is "Innova Crysta / SUV" |
| Services.BookingVehicleIdempotent | src/components/home/ServicesSection.tsx:117 | applying the renaming to its own result changes nothing |
| Services.FleetBooksVehicleOption | src/components/home/ServicesSection.tsx:13-38 | every card's booking vehicle is one of the contact form's vehicle options |
| Services.FleetNamesDistinct | src/components/home/ServicesSection.tsx:68-70 | the card names (the list's keys) are distinct, and so are the vehicles they book |
| Services.BookNowPrefillsForm | src/components/home/ServicesSection.tsx:115-121 | following a card's link opens the form with a selectable vehicle that passes; submitting that fresh form gives errors on the five required text fields only |

## Left out

- Rendering: the CSS classes and the framer-motion animations only change how the page looks. The JSX mostly shows fixed text; the input attributes it sets and that affect behaviour are modelled: the seats input's `type="number" min="1"` (`NumberInput`, guarding `Contact.Submit`), the date input's `type="date"`, whose partly typed state also stops the submit event (the `dateBadInput` argument of `Contact.Submit`, through `Contact.BrowserAccepts`), and the text, select and date inputs that cannot hold a line break (`HasNoLineBreak`).
- The fully static components (About, Footer, Hero, Location, CTA banner, the floating WhatsApp button, the home page) are markup and constant links.
- The Footer's year comes from a clock read.
- `window.open`: the browser side effect is left out. The model produces the URL string that `window.open` receives.
- react-hook-form and zod are not modelled as libraries. The model keeps only the concrete checks of `formSchema`, run in order with the first failing check reported.
- Zod's own default message for `.max` is shown as `TooBig(maximum)` without its text.
- Navigation state that is not a string is modelled as `None`, the same as no state.
- The `<select>` element may hold a value outside its options. The model does not treat that case specially: the field is checked only by its length, as the schema does.
- `useState` and `useEffect` scheduling: the effect that copies the pre-selected vehicle is modelled as a function applied to the form values (`ApplyPreselection`), not as a render cycle.
- The toast and the `isSubmitting` flag have no influence on the outcome.
- The errors the form shows are not modelled as component state. In react-hook-form's default "onSubmit" mode (`useForm` sets no `mode`), no error is shown before the first submission. `Contact.Errors` is the map a submission computes. After that, the form re-validates the changed field on each edit (`Contact.RevalidateField`), and `Contact.RevalidationKeepsErrorsCurrent` proves the shown map stays equal to `Contact.Errors` of the current values.
- NumberInput.AcceptsValue: the number is read exactly as written. The browser rounds it to a binary64 double first, so very long or very large numbers (for example one with 20 fraction digits that rounds to a whole number, or "1e400") can be judged differently.
- NumberInput.AcceptsValue: the predicate judges the text typed into the box. A browser stores text that is not a number as the empty value and flags it as bad input; both that flag and the sanitised empty value are left out. Either way the form is not submitted.
- Contact.SubmitAllOrNothing: the date box's bad-input state is a separate argument, `dateBadInput`. A browser gives a partly typed date the value "", so that `travel_date` is then empty; the model does not tie the two together, and its lemmas hold whatever `travel_date` is.
- The Navbar's DOM and timer work are left out: `getBoundingClientRect` (replaced by integer inputs), `scrollIntoView`, `setTimeout`, event-listener registration, and `document.body.style.overflow`.
- The mobile menu's open/close toggling is UI state tied to styling.
- Navbar.ToUpperAscii: `toUpperCase` is modelled for ASCII letters only. These are all that the two section ids contain.
- Pixel coordinates and `scrollY` are integers. The browser's fractional values are not modelled.
- The Helmet SEO tags, the Google Maps iframe, and the fleet cards' images and icons are opaque external content.
- Contact.ParseMessageRoundTrip: the round trip holds for fields without a line feed. A text input, a select and a date input cannot hold one, but the model takes this as a hypothesis (`HasNoLineBreak`).
- `decodeURIComponent` and `ParseMessage` do not exist in the site. They are the partners against which the encoder and the serialiser are proved.
- A form variant with one combined route field of 10 to 500 characters is not in this code. The model has the split pickup and drop fields that the code has.
