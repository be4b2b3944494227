# Dashboard resources: verified model of the controller logic

The dashboard's browser code binds server-rendered pages to widget libraries
(a rich-text editor, a calendar, a pub/sub client). The logic that is the
code's own, and not a call into a library, is modelled here and proved:

- `application.dfy`, module `Application`: the base controller. It builds
  URLs under the dashboard prefix. The path is joined to the configured prefix,
  every run of slashes is collapsed, and the page's origin is put in front.
  The module also has the default severity of `toast` and `alert`, and
  `formToObject`, which folds a form's key/value entries into a table. A key
  entered once holds its value. A key entered again holds an array of all its
  values.
- `quill.dfy`, module `Quill`: the rich-text editor controller. It holds the
  colour palette with its `custom-color` sentinel and the custom-colour prompt.
  It builds the toolbar from a list of tool-group names looked up in a fixed
  table. It has the image gate (only `image/` MIME types are uploaded), the
  attachment URL inserted at the selection, and the classification of the
  attachment server's eight error types into messages.
- `wrappers.dfy`, module `Wrappers`: `Option`, standing for JavaScript's
  `undefined`/`null` where a value may be missing.

Browser and library calls are parameters or results. The server's reply is an
input. `window.prompt` is a function argument. The page's `location` and the
prefix `<meta>` content are inputs. The toast controller call and the editor's
`insertEmbed` call are returned values (`Notice`, `Effect`). The runtime's
floating-point rendering of `max_size / 1000 / 1000` is a function argument.

The model follows the code, including where one might expect otherwise. The
one exception is the file-too-large size figure, which is listed under
"## Findings":
- A reply body that is not JSON makes `res.json()` reject, so no notice is
  shown. The same holds for a rejected `fetch` and for a JSON `null` body,
  whose property reads throw. One might expect the generic message here,
  but it appears only for a parsed body whose `type` is unrecognised.
- An unknown toolbar group name yields `undefined` in the toolbar array. One
  might expect an empty segment instead.
- `Quill.HandleReply` and `Quill.UploadImage` read the size shown in the
  file-too-large message from the reply's body, as intended. The code as
  written shows `NaN` there (see "## Findings" and "## Left out").

## Model

| member | source | states |
|---|---|---|
| `Application.CollapseSlashes` | resources/js/controllers/application_controller.js:14 | the result of replacing every run of two or more slashes by one slash has no two consecutive slashes, is no longer than its input and starts with the same character |
| `Application.CollapseMatchesReference` | resources/js/controllers/application_controller.js:14 | the run-by-run regular-expression replacement equals deleting each slash that is directly followed by another slash |
| `Application.CollapseKeepsCleanString` | resources/js/controllers/application_controller.js:14 | a string without `//` is returned unchanged |
| `Application.CollapseFixedPoints` | resources/js/controllers/application_controller.js:14 | collapsing leaves a string unchanged if and only if the string has no `//` |
| `Application.CollapseIdempotent` | resources/js/controllers/application_controller.js:14 | collapsing an already collapsed string changes nothing |
| `Application.CollapseKeepsOtherCharacters` | resources/js/controllers/application_controller.js:14 | every character other than `/` survives collapsing, in its original order |
| `Application.Origin` | resources/js/controllers/application_controller.js:16 | the origin is the protocol, `//` and the hostname, followed by `:` and the port exactly when the port is non-empty |
| `Application.Prefix` | resources/js/controllers/application_controller.js:10-17 | with the prefix meta element present, the URL starts with the origin; the pathname after it has no `//`, keeps every non-slash character of prefix + path in order, and is prefix + path itself when that had no `//`; without the element no URL is produced |
| `Application.PrefixPort` | resources/js/controllers/application_controller.js:16 | the URL is protocol + `//` + hostname, then `:` + port only when the port is non-empty, then the collapsed pathname |
| `Application.PrefixTrailingSlashIrrelevant` | resources/js/controllers/application_controller.js:13-14 | a prefix with a trailing slash and the same prefix without it give the same URL for a path starting with `/` |
| `Application.Toast` | resources/js/controllers/application_controller.js:36-40 | the toast carries the message; its severity is `warning` when none is given and the given one otherwise |
| `Application.Alert` | resources/js/controllers/application_controller.js:25-29 | the alert carries title and message; its severity is `warning` when none is given and the given one otherwise |
| `Application.ValuesFor` | resources/js/controllers/application_controller.js:49-62 | the values entered under a key are empty exactly when the key does not occur among the entries |
| `Application.ValuesForAppend` | resources/js/controllers/application_controller.js:51-62 | one more entry appends its value to its own key's values and leaves every other key's values unchanged |
| `Application.KeysOfAppend` | resources/js/controllers/application_controller.js:51-53 | one more entry adds exactly its key to the set of keys |
| `Application.Absorb` | resources/js/controllers/application_controller.js:49-63 | the callback adds the entry's key and changes no other key; a new key holds the value as a scalar, and a key already present holds its earlier values followed by the new one as an array |
| `Application.AbsorbExtends` | resources/js/controllers/application_controller.js:51-62 | one callback keeps the table exactly the one the entries so far describe |
| `Application.FormToObject` | resources/js/controllers/application_controller.js:46-67 | the table's keys are exactly the keys entered; each key holds all its values in entry order, as a scalar exactly when it was entered once |
| `Quill.Colors` | resources/js/controllers/quill_controller.js:218-227 | 36 entries, the first 35 `#` + six lower-case hex digits, the last `custom-color` |
| `Quill.SentinelOnlyLast` | resources/js/controllers/quill_controller.js:225 | `custom-color` occurs at index 35 and nowhere else |
| `Quill.ColorsDistinct` | resources/js/controllers/quill_controller.js:219-225 | no colour occurs twice in the palette |
| `Quill.CustomColor` | resources/js/controllers/quill_controller.js:212-216 | the sentinel yields the prompt's answer to the fixed prompt text |
| `Quill.CustomColorPassesThrough` | resources/js/controllers/quill_controller.js:212-216 | any value other than the sentinel is returned unchanged whatever the prompt would answer, so the prompt is not consulted |
| `Quill.PaletteChoice` | resources/js/controllers/quill_controller.js:212-227 | choosing one of the first 35 palette entries applies that colour; choosing the last asks the prompt |
| `Quill.ControlsGroup` | resources/js/controllers/quill_controller.js:230-238 | a name has a control list exactly when it is one of the seven group names, and that list is never empty |
| `Quill.ContainerToolbar` | resources/js/controllers/quill_controller.js:240-241 | the toolbar has one entry per requested name, in order, and entry i is the table's entry for name i |
| `Quill.ToolbarUnknownNames` | resources/js/controllers/quill_controller.js:240-241 | an entry is undefined exactly when its name is not a known group; no error arises |
| `Quill.ToolbarConcat` | resources/js/controllers/quill_controller.js:240-241 | the toolbar of two concatenated requests is the concatenation of their toolbars |
| `Quill.ColorGroupOffersPalette` | resources/js/controllers/quill_controller.js:233 | both controls of the colour group are pickers offering the palette |
| `Quill.IsImageType` | resources/js/controllers/quill_controller.js:258 | a type that passes the image test is `image/` followed by the rest of the type |
| `Quill.ImageTypeIsPrefix` | resources/js/controllers/quill_controller.js:258 | a MIME type passes the image test exactly when it is `image/` followed by anything |
| `Quill.ImageTypeExamples` | resources/js/controllers/quill_controller.js:258 | `image/png` passes; `IMAGE/PNG`, `image` and `text/image/png` do not (case-sensitive, anchored at the start) |
| `Quill.UploadRequest` | resources/js/controllers/quill_controller.js:272-278 | the upload is a POST of the file, as form field `file`, to `https://autumn.fluffici.eu/attachments` |
| `Quill.SelectLocalImage` | resources/js/controllers/quill_controller.js:254-264 | a file is sent to the server if and only if its type starts with `image/`; otherwise the `danger` alert "Validation error" / "You could only upload images." is raised |
| `Quill.AttachmentUrl` | resources/js/controllers/quill_controller.js:282 | the embedded URL starts with `https://autumn.fluffici.eu/attachments/` |
| `Quill.AttachmentUrlRoundTrip` | resources/js/controllers/quill_controller.js:282 | the attachment id is recovered from the URL, so different ids give different URLs |
| `Quill.AttachmentUrlUnderEndpoint` | resources/js/controllers/quill_controller.js:276-282 | the attachment URL is the upload endpoint, `/` and the id |
| `Quill.InsertToEditor` | resources/js/controllers/quill_controller.js:319-323 | the image is embedded at the index of the current selection; with no selection nothing is inserted |
| `Quill.ClassifyError` | resources/js/controllers/quill_controller.js:292-310 | a `type` is classified as an error exactly when it is that error's name; a type matching no name is unrecognised |
| `Quill.ClassifyRoundTrip` | resources/js/controllers/quill_controller.js:292-306 | each of the eight error names is recognised as its own error |
| `Quill.ErrorTypeName` | resources/js/controllers/quill_controller.js:292-306 | each error's wire name is one of the eight `type` strings the chain tests |
| `Quill.ErrorMessage` | resources/js/controllers/quill_controller.js:293-307 | the seven fixed messages have seven different lengths; the file-too-large message is longer than all of them, starts with `T` and carries the size figure at position 48 |
| `Quill.IdText` | resources/js/controllers/quill_controller.js:282 | a present id is interpolated as itself; a missing one as `undefined` |
| `Quill.MegabyteFigure` | resources/js/controllers/quill_controller.js:307 | the figure is the runtime's rendering of the body's `max_size` in megabytes, and `NaN` when the body has no size |
| `Quill.ErrorMessagesDistinct` | resources/js/controllers/quill_controller.js:292-309 | different errors have different messages, and none of them is the fallback message, whatever the size figure |
| `Quill.ErrorNotice` | resources/js/controllers/quill_controller.js:290-311 | a recognised type gives a toast with its message and severity `danger`; any other type gives the fallback message with the default severity `warning` |
| `Quill.DisplayErrorAsWritten` | resources/js/controllers/quill_controller.js:307 | as written, the file-too-large message always shows `NaN` for the size |
| `Quill.DisplayError` | resources/js/controllers/quill_controller.js:290-311 | with the size read from the reply, the file-too-large message shows the rendered `max_size` in megabytes |
| `Quill.FileTooLargeFigureLost` | resources/js/controllers/quill_controller.js:307 | for the reply `{type: "FileTooLarge", max_size: 5000000}` the code as written says `NaN Mb` where `5 Mb` is meant |
| `Quill.DisplayErrorAgreesElsewhere` | resources/js/controllers/quill_controller.js:292-310 | both readings agree on every reply that is not file-too-large |
| `Quill.HandleReply` | resources/js/controllers/quill_controller.js:279-287 | an ok reply embeds the attachment URL of the returned id at the selection; a failed reply shows the error notice, with the size read from the body (the corrected reading); a body that is not JSON has no effect |
| `Quill.HandleReplyAgreesWithCode` | resources/js/controllers/quill_controller.js:285-310 | on every failed reply except file-too-large, the corrected handling shows exactly the notice the code as written shows; on a file-too-large reply it shows the body's size figure |
| `Quill.UploadImage` | resources/js/controllers/quill_controller.js:254-288 | a non-image file yields the danger alert; an image file yields the (corrected) handling of the server's reply |
| `Quill.NonImageNeverUploads` | resources/js/controllers/quill_controller.js:258-262 | a non-image file is refused whatever the server would reply, so no request is made, and the notice is `danger` |
| `Quill.PngUploadScenario` | resources/js/controllers/quill_controller.js:258-282 | an `image/png` file answered with id `abc123` embeds `https://autumn.fluffici.eu/attachments/abc123` at the selection index |

## Findings

| source | as written | input that shows it | evidently intended | confidence | as-written member | corrected member |
|---|---|---|---|---|---|---|
| resources/js/controllers/quill_controller.js:307 | the size is read as `error.max_size`, and `error` is the promise of the body, which has no such property; the division yields `NaN` | reply `{type: "FileTooLarge", max_size: 5000000}`: the message says `NaN Mb` | read `result.max_size`, so the message says `5 Mb` | high; not executed | `Quill.DisplayErrorAsWritten` (shown by `Quill.FileTooLargeFigureLost`) | `Quill.DisplayError` |

The rest of the model (`Quill.HandleReply` and `Quill.UploadImage`) uses the corrected `Quill.DisplayError`.

## Left out

- The presence channel, whisper broadcast and remote cursors (quill_controller.js:158-205): they are calls into the pub/sub client and the cursor module. The code keeps one `cursorId` field, which each join overwrites, so it keeps no per-participant cursor table that could be modelled.
- `debounce`, `updateCursor` and the latency constants (quill_controller.js:5-6, 108-139, 180-183): they depend on timers and the event loop.
- `connect` and `disconnect` (quill_controller.js:34-117, 185-187): these construct the editor, dispatch the `orchid:quill` event, sync the textarea and register the toolbar handlers. They are library wiring. `CustomColor` models the value the colour and background handlers pass on.
- `loadStream` (application_controller.js:74-82): a network request and Turbo stream rendering.
- The DOM lookups in `toast`, `alert` and `prefix`, the `console` logging, `fetch` and `FormData`: I/O. Their inputs and outputs are parameters and results.
- `Quill.HandleReply`: uses the corrected `Quill.DisplayError`, so on a failed file-too-large reply it shows the body's size where the code as written shows `NaN`. `Quill.HandleReplyAgreesWithCode` proves that this is its only difference from the code.
- `Quill.UploadImage`: composes `Quill.HandleReply`, so it has the same one difference from the code on a failed file-too-large reply.
- `Quill.MegabyteFigure`: the number `max_size / 1000 / 1000` and its rendering as text are floating point. They are a parameter, not computed.
- `Quill.ControlsGroup`: names inherited by every JavaScript object (`constructor`, `toString`, ...) would find an inherited member, not `undefined`. The model treats them as unknown names.
- `Quill.ContainerToolbar`: the `JSON.parse` of the `toolbar` data attribute is not modelled. The input is the parsed list of names.
- `Quill.CustomColor`: Quill's pickers pass `false` for the "no colour" choice. The model takes string values only; `false` is passed through unchanged in the source as well.
- `Quill.SelectLocalImage`: the case where the dialog yields no file (`input.files[0]` undefined, then a `TypeError`) is not modelled. The handler is given a file.
- `Quill.IdText`: an `id` that is a JSON number is shown by the runtime's number formatting. The model takes string ids, and a missing id becomes `undefined`.
- `Application.FormToObject`: a key spelled `__proto__` is special for plain JavaScript objects. The model treats it as an ordinary key.
- calendar_controller.js, picture_controller.js, app.js and webpack.mix.js: these are calendar library configuration, DOM class toggling, global bootstrapping and build configuration, with no local logic to verify.
