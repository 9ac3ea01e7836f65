# spx-print-url in Dafny

A model of the single page of spx-print-url (`pages/index.js`). The page turns
a request payload pasted as `key: value` lines into a print URL for a DVR
page. It has two radio selections:

- the environment, `remote` or local, picks the origin;
- the mode, `standalone` or integrated, picks the `/s/` or `/i/` segment.

The model has four modules:

- `JsString` — the JavaScript string primitives the page relies on, over
  `seq<char>`. They are `split` and `join` with one separator, `trim`,
  `toLowerCase`, `includes`, `replace` with a string pattern (first occurrence
  only) and the global replace of `/['"]+/g` by the empty string.
- `PrintUrl` — the pure URL builder:
  - `getEnv` (`Origin`) and `getMode` (`ModeSegment`);
  - `parseQueryParams` (`ParseLine`, `Fold`, `ParsePayload`), with the
    JavaScript object it builds modelled as an insertion-ordered list of
    entries (`Params`) and `undefined` as a value of its own (`JsValue`);
  - `formatQueryParams` (`FormatQueryParams`);
  - the URL template of the payload handler (`PrintPath`, `BuildUrl`,
    `PayloadUrl`).
- `HomePage` — the `Home` component as a class. Its fields are `url`, `env`,
  `mode` and `queryParams`. Its methods are the four handlers that overwrite
  them: `ChangeEnv`, `ChangeMode`, `ChangePayload` and `Clear`. The invariant
  `InSync` says that whenever a payload is present, the URL is the one built
  from the current selections and that payload. The constructor establishes
  it and every handler keeps it.
- `PayloadExamples` — how two keys of the page's placeholder payload are
  classified.

Two behaviours of the code are easy to miss. The model keeps both as written:

- Emptying the payload (`pages/index.js:32-34`) sets the URL to the fixed
  initial URL `https://localhost:9002/s/print/dvr/:zoneId/:containerId?`,
  whatever environment and mode are selected. See `PrintUrl.PayloadUrl`,
  `HomePage.Home.ChangePayload` and `PrintUrl.InitialUrlIgnoresSelection`.
- A line without a colon stores `undefined` under the whole line
  (`pages/index.js:42`, `53`). The template literal renders `undefined` as
  that text, so such a key reaches the query string as `key=undefined`. There
  are two exceptions:
  - a timestamp key (one whose lower-cased name holds "time" but not
    "isrealtime") stores "undefined:" instead (`pages/index.js:51-52`), and is
    written as `key=undefined:`;
  - a bare `zoneId` or `containerId` line goes into the path, as
    `…/undefined/…` (`pages/index.js:36-37`), and not into the query string.

## Model

| member | source | states |
|---|---|---|
| JsString.Split | pages/index.js:41-42 | `split` on one character gives at least one part, no part holds the separator, and joining the parts with it gives the text back |
| JsString.SplitNoSeparator | pages/index.js:42 | a text without the separator splits into just itself |
| JsString.SplitAtFirstSeparator | pages/index.js:42 | the text before the first separator is the first part, and the rest splits independently |
| JsString.SplitJoin | pages/index.js:52 | `split` undoes `join` when no part holds the separator |
| JsString.TrimSpec | pages/index.js:44 | `trim` removes only white space, from both ends, and keeps a text that neither starts nor ends with it |
| JsString.TrimStartBeforeColon | pages/index.js:52 | trimming the first fragment and then gluing `:` and the rest equals trimming the start of the glued text, when the fragment has no trailing space |
| JsString.ContainsSpec | pages/index.js:51 | `includes` holds exactly when the pattern occurs at some index |
| JsString.IndexOf | pages/index.js:17 | the index found is an occurrence with none before it; None exactly when there is no occurrence |
| JsString.ReplaceFirstSpec | pages/index.js:17 | `replace` with a string pattern leaves a text without an occurrence unchanged and otherwise replaces only the first occurrence |
| JsString.ReplaceFirstPrefix | pages/index.js:17 | a pattern at the very start is the one replaced |
| JsString.ReplaceFirstAfter | pages/index.js:24 | when the pattern first occurs right after a prefix, only what follows the prefix changes |
| JsString.StripQuotes | pages/index.js:52-53 | the quote-removing replace leaves no single or double quote and never lengthens the text; with `JsString.StripQuoteChar`, `JsString.KeepOtherChar` and `JsString.StripQuotesAppend` it deletes every quote and keeps every other character in order |
| JsString.StripQuoteChar | pages/index.js:52-53 | a single or double quote on its own is deleted, leaving the empty text |
| JsString.KeepOtherChar | pages/index.js:52-53 | any other character on its own is kept |
| JsString.StripQuotesAppend | pages/index.js:52-53 | removing quotes distributes over concatenation; with `JsString.StripQuoteChar` and `JsString.KeepOtherChar` this pins the replace down: every quote is deleted and every other character is kept, in order |
| JsString.StripQuotesIdentity | pages/index.js:52-53 | a text is left unchanged if and only if it holds no quote |
| JsString.StripQuotesIdempotent | pages/index.js:52-53 | removing quotes twice is removing them once |
| JsString.Join | pages/index.js:52 | `join`: no contract of its own; `JsString.Split` and `JsString.SplitJoin` state that `split` and `join` invert each other |
| JsString.TrimStart | pages/index.js:44 | removes only leading white space and leaves a text that does not start with it |
| JsString.TrimEnd | pages/index.js:44 | removes only trailing white space and leaves a text that does not end with it |
| JsString.Trim | pages/index.js:44 | `trim`: no contract of its own; `JsString.TrimSpec` states what it removes and keeps |
| JsString.ToLower | pages/index.js:51 | `toLowerCase` on ASCII letters: no contract of its own; `PayloadExamples.RealTimeIsNotTimeKey` and `PayloadExamples.StartTimeIsTimeKey` apply it to two keys |
| JsString.Contains | pages/index.js:51 | `includes`: no contract of its own; `JsString.ContainsSpec` states it |
| JsString.ReplaceFirst | pages/index.js:17 | `replace` with a string pattern: no contract of its own; `JsString.ReplaceFirstSpec` states it |
| PrintUrl.Origin | pages/index.js:58-60 | `getEnv`: no contract of its own; `PrintUrl.OriginChoice` states which value picks which origin |
| PrintUrl.ModeSegment | pages/index.js:62-64 | `getMode`: no contract of its own; `PrintUrl.ModeSegmentChoice` states which value picks which segment |
| PrintUrl.Render | pages/index.js:68 | template-literal rendering: no contract of its own; `PrintUrl.FormatDecodeRoundTrip` and `PrintUrl.MissingValue` show `undefined` written as "undefined" |
| PrintUrl.IsTimeKey | pages/index.js:51 | the timestamp-key test: no contract of its own; `PayloadExamples.RealTimeIsNotTimeKey` and `PayloadExamples.StartTimeIsTimeKey` apply it |
| PrintUrl.TrimValue | pages/index.js:52-53 | `value?.trim()`: no contract of its own; `PrintUrl.MissingValue` and `PrintUrl.ScalarValue` show both cases |
| PrintUrl.FieldValue | pages/index.js:51-53 | the value stored for a key: no contract of its own; `PrintUrl.MissingValue`, `PrintUrl.ScalarValue` and `PrintUrl.TimeFieldValue` state its three cases |
| PrintUrl.Step | pages/index.js:44-54 | one reduce step: no contract of its own; `PrintUrl.StepLookup` states that it changes only the key its line stores |
| PrintUrl.Entries | pages/index.js:41 | one entry per payload line |
| PrintUrl.ParsePayload | pages/index.js:40-56 | `parseQueryParams`: no contract of its own; `PrintUrl.FoldLookup`, `PrintUrl.LastDefinitionWins` and `PrintUrl.AbsentKeyNeverStored` state what each key reads |
| PrintUrl.Pair | pages/index.js:68 | one `key=value` pair: no contract of its own; `PrintUrl.FormatDecodeRoundTrip` reads pairs back |
| PrintUrl.PrintPath | pages/index.js:36-37 | the path after the segment: no contract of its own; `PrintUrl.SwitchEnvOnBuiltUrl` and `PrintUrl.SwitchModeOnBuiltUrl` show that a switch leaves it alone |
| PrintUrl.BuildUrl | pages/index.js:37 | the URL template: no contract of its own; `HomePage.Home.ChangePayload` sets it and `PrintUrl.SwitchEnvOnBuiltUrl` and `PrintUrl.SwitchModeOnBuiltUrl` relate it to the switches |
| PrintUrl.PayloadUrl | pages/index.js:32-37 | the URL the payload handler sets: no contract of its own; `PrintUrl.InitialUrlIgnoresSelection` shows that the empty case ignores the selections |
| PrintUrl.OriginChoice | pages/index.js:58-60 | the remote origin is chosen exactly for `remote`, and the local origin for every other value |
| PrintUrl.ModeSegmentChoice | pages/index.js:62-64 | `/s/` is chosen exactly for `standalone`, and `/i/` for every other value |
| PrintUrl.Keys | pages/index.js:67 | `Object.keys` lists one key per entry, in entry order |
| PrintUrl.Lookup | pages/index.js:36 | a key reads a value exactly when it is among the keys, and the value read is stored under it |
| PrintUrl.Get | pages/index.js:36 | destructuring a missing key gives `undefined`, and a present key gives its value |
| PrintUrl.Put | pages/index.js:48-54 | spreading and then setting a key appends a new key last, keeps an existing key in place, and never stores a key twice |
| PrintUrl.PutLookup | pages/index.js:48-54 | after setting, the key reads the new value and every other key reads what it read before |
| PrintUrl.Without | pages/index.js:36 | the rest object holds exactly the entries whose keys were not destructured, and keys stay distinct |
| PrintUrl.WithoutLookup | pages/index.js:36 | in the rest object a destructured key is missing, and every other key reads as before |
| PrintUrl.WithoutAppend | pages/index.js:36 | the rest object keeps the relative order of the remaining entries |
| PrintUrl.ParseLine | pages/index.js:42-54 | a kept line stores its value under the text before its first colon, exactly as written |
| PrintUrl.SplitLine | pages/index.js:42 | a line `key:first…` destructures into that key, that first value fragment and the fragments of the rest |
| PrintUrl.LineWithoutColon | pages/index.js:42-53 | a line without a colon stores `undefined` under the whole line, or "undefined:" when the line is a timestamp key |
| PrintUrl.MissingValue | pages/index.js:51-53 | a missing value stays `undefined`, except under a timestamp key, where it becomes "undefined:" |
| PrintUrl.NullValueDropped | pages/index.js:44-46 | a line whose first value fragment trims to `null` is dropped, whatever its key |
| PrintUrl.ScalarValue | pages/index.js:53 | an ordinary key stores its first value fragment trimmed and without quotes, and anything after a further colon is lost |
| PrintUrl.TimeValueKeepsColons | pages/index.js:51-52 | a timestamp key stores its first value fragment trimmed at both ends, then a colon and the rest of the line exactly as written, with quotes removed |
| PrintUrl.TimeFieldValue | pages/index.js:52 | gluing the trimmed first fragment and the later fragments back with colons gives the trimmed fragment, a colon and the text after the second colon |
| PrintUrl.TimeValueTrimsStart | pages/index.js:52 | when the first value fragment does not end in white space, the stored timestamp is the text after the key's colon with only its start trimmed |
| PrintUrl.TimeValueTrailingColon | pages/index.js:52 | a timestamp value with no further colon gains a trailing colon |
| PrintUrl.Fold | pages/index.js:41-55 | the reduce over the lines never stores a key twice |
| PrintUrl.NullLineLeavesParams | pages/index.js:44-46 | appending a `null` line leaves the parsed object exactly as it was |
| PrintUrl.StepLookup | pages/index.js:48-54 | one reduce step changes only the key its line stores |
| PrintUrl.FoldLookup | pages/index.js:41-55 | reading a key from the parsed object reads the last line that stores it |
| PrintUrl.AbsentKeyNeverStored | pages/index.js:41-55 | a key is absent from the parsed object exactly when no line stores it |
| PrintUrl.LastDefinitionWins | pages/index.js:48-54 | when a key is given twice, the later line's value wins |
| PrintUrl.KeysKeepInsertionOrder | pages/index.js:48-50 | the keys after any prefix of the lines stay, in order, at the front of the final key list |
| PrintUrl.FormatQueryParams | pages/index.js:66-70 | the query string is empty exactly when the object is empty |
| PrintUrl.FormatDecodeRoundTrip | pages/index.js:66-70 | with no `&` or `=` in keys and no `&` in values, splitting the query string on `&` and each pair at its first `=` gives back every key and its rendered value (`undefined` as "undefined"), in order |
| PrintUrl.SwitchEnvRebuilds | pages/index.js:17 | on the current origin followed by a mode segment and a path, the replace swaps just the origin |
| PrintUrl.SwitchEnvOnBuiltUrl | pages/index.js:14-19 | switching the environment of a URL built for a payload gives the URL built for the new environment |
| PrintUrl.SwitchEnvKeepsSync | pages/index.js:14-19 | an environment switch keeps a URL built from the payload in step with the selection |
| PrintUrl.OriginsHaveNoSlashPair | pages/index.js:59 | no slash in either origin has another slash two places after it |
| PrintUrl.NoSegmentInsideOrigin | pages/index.js:37 | in a built URL, no mode segment occurs inside or across the end of the origin |
| PrintUrl.SwitchModeRebuilds | pages/index.js:24 | on a URL built with the current mode, the replace swaps just the segment after the origin |
| PrintUrl.SwitchModeOnBuiltUrl | pages/index.js:21-26 | switching the mode of a URL built for a payload gives the URL built for the new mode |
| PrintUrl.SwitchModeKeepsSync | pages/index.js:21-26 | a mode switch keeps a URL built from the payload in step with the selection |
| PrintUrl.InitialUrlIgnoresSelection | pages/index.js:5 | the initial URL is the remote, standalone one, so it does not start with the local origin and does not carry the integrated segment |
| PayloadExamples.RealTimeIsNotTimeKey | pages/index.js:51 | `isRealTime` mentions "time" but does not get timestamp treatment |
| PayloadExamples.StartTimeIsTimeKey | pages/index.js:51 | `startTime` gets timestamp treatment, so its value keeps its colons |
| HomePage.Home.constructor | pages/index.js:9-12 | starts with the initial URL, `remote`, `standalone` and an empty payload, in sync |
| HomePage.Home.ChangeEnv | pages/index.js:14-19 | the old origin's first occurrence in the URL becomes the new origin, only the environment changes besides the URL, and the sync invariant is kept |
| HomePage.Home.ChangeMode | pages/index.js:21-26 | the old segment's first occurrence in the URL becomes the new segment, only the mode changes besides the URL, and the sync invariant is kept |
| HomePage.Home.ChangePayload | pages/index.js:28-38 | stores the payload, keeps both selections, shows the initial URL for an empty payload and the built URL otherwise, and ends in sync |
| HomePage.Home.Clear | pages/index.js:76-81 | back to the initial URL, `remote`, `standalone` and an empty payload, in sync |

## Left out

- Rendering (`pages/index.js:83-180`): the markup, the radio inputs and the text area are not modelled. The handlers take the new value (`event.target.value`) as a parameter.
- Copying to the clipboard (`pages/index.js:3`, `8`, `72-74`) goes through an external library and is not modelled.
- React state updates are asynchronous and batched. The model applies each handler's updates immediately, in order. Every handler reads the state it starts with before it writes, so the resulting state is the same.
- `trim` removes only ASCII white space: space, tab, line feed, carriage return, vertical tab and form feed. JavaScript also removes Unicode spaces, line separators and the byte-order mark.
- `toLowerCase` is modelled for ASCII letters only.
- JavaScript objects list integer-like keys first, in ascending order, and treat a `__proto__` key specially. The model keeps every key in insertion order.
- `replace` gives `$` patterns in the replacement a special meaning. The replacements here are the fixed origins and segments, which hold no `$`, so that meaning is not modelled.
- The sync invariant holds only while a payload is present. After the payload is emptied the URL is the fixed initial URL, and a switch then edits that URL in place.
