# Welfare OSINT lookup-and-redact core, modelled in Dafny

The server of this system takes a phone number and forwards it to a Telegram bot. It waits, then reads
the latest message in the chat with the bot and turns that free-form text into a redacted report. The Dafny
project models the part of `server/routes.ts` that has logical content:

- **Redaction pipeline** (`redaction.dfy`, module `Redaction`). The reply is split into lines on
  `'\n'`. A line is kept when its lower-cased form mentions one of six labels (`telephone`,
  `adres`, `full name`, `father`, `region`, `document`) and does not mention the vendor
  signature `hiteckgroop`. Each kept line keeps its first `floor(n / 2)` characters and has
  every later character replaced by `*`. The report is a fixed three-line warning header and a
  blank line, followed by the masked lines joined by blank lines, or by a fixed not-found notice
  when no line is kept.
- **String operations** (`strings.dfy`, module `Strings`). These are the JavaScript primitives the
  pipeline uses: `includes`, `toLowerCase` (ASCII letters), `split`, `join` and `repeat`. The
  module proves that `split` and `join` are inverse to each other.
- **Response mapping** (`search_endpoint.dfy`, module `SearchEndpoint`). A successful exchange
  gives `{unit: "Welfare Intelligence Team", sound: "success_beep", report}` with status 200.
  Any error thrown inside the handler's `try` (`server/routes.ts:42-75`) gives
  `{error: "Timeout", sound: "error_buzz"}` with status 500. The bot exchange is an input:
  either the latest message in the chat with the bot (possibly absent) or an error.
- **Session persistence** (`session_store.dfy`, module `SessionStore`). The session file is
  rewritten only when the live session string differs from the saved one. Its content is
  `export const savedSession = "<session>";`. The model pairs this with the read-back that the
  next start performs by importing the file.

The code masks the second half of each kept line, whatever its label, and never splits a
line at `:`. So for the line `Telephone: 9876543210` the report shows `Telephone:` followed by
eleven `*`. The session file is written with `fs.writeFileSync`, which is outside the model.

Strings are `seq<char>`, and a Dafny `char` is one Unicode scalar value. JavaScript's
`length`, `substring` and `repeat` count UTF-16 code units. The two counts agree on every
character of the Basic Multilingual Plane, which includes the warning sign U+26A0 and the
selector U+FE0F of the header, and differ on characters above it, such as most emoji.

## Model

| member | source | states |
|---|---|---|
| `Strings.Contains` | server/routes.ts:57-60 | `includes` never finds a text longer than the line, and always finds the empty text |
| `Strings.ContainsIff` | server/routes.ts:57-60 | `includes` holds exactly when some index of the string starts an occurrence of the searched text |
| `Strings.ContainsLower` | server/routes.ts:56-59 | an occurrence of a word in a line is an occurrence of the lower-cased word in the lower-cased line, so the label search ignores case |
| `Strings.Lower` | server/routes.ts:56 | `toLowerCase` keeps the length and maps each character on its own: `A`-`Z` to `a`-`z`, all else unchanged, so no upper-case ASCII letter remains |
| `Strings.LowerIdempotent` | server/routes.ts:56 | lower-casing an already lower-cased line changes nothing |
| `Strings.Repeat` | server/routes.ts:65 | `"*".repeat(n)` has length `n` and every character is `*` |
| `Strings.Split` | server/routes.ts:52 | splitting on `'\n'` yields at least one piece, and no piece holds a line break |
| `Strings.JoinSplit` | server/routes.ts:52 | joining the split lines with `'\n'` gives back the raw reply, so no character of the reply is lost or reordered |
| `Strings.Join` | server/routes.ts:73 | `join` of no lines is the empty string, and a join of one or more lines starts with the first |
| `Strings.SplitJoin` | server/routes.ts:73 | splitting a join of break-free pieces gives back exactly those pieces |
| `Strings.JoinEndsWithLast` | server/routes.ts:73 | a non-empty join ends with its last piece |
| `Redaction.HasLabelIff` | server/routes.ts:57-59 | the six `includes` tests of the filter are exactly "some entry of the label list occurs" |
| `Redaction.IsKept` | server/routes.ts:55-61 | the filter's test: lower-case the line, require one of the six labels and no signature; a line that passes is never empty |
| `Redaction.KeptIff` | server/routes.ts:55-61 | a line is kept iff its lower-cased form holds some label at some index and holds `hiteckgroop` at none; the signature overrides a label |
| `Redaction.KeptWhateverTheCase` | server/routes.ts:56-60 | a line holding a label in any mix of cases, and no signature, is kept |
| `Redaction.KeepLines` | server/routes.ts:54-61 | every line the filter returns is a line of the reply and passes the test |
| `Redaction.KeptPositions` | server/routes.ts:54-61 | the kept positions are increasing, each holds a kept line, and every kept line's position is listed |
| `Redaction.KeepLinesSelects` | server/routes.ts:54-61 | the filter returns exactly the lines at the kept positions, in order: each qualifying line once, in its original place, nothing else |
| `Redaction.NothingKept` | server/routes.ts:54-61 | the filter returns nothing exactly when no line passes the test |
| `Redaction.Mask` | server/routes.ts:62-67 | a masked line has the original's length, its first `floor(n / 2)` characters are the original's (case unchanged), and every later one is `*` |
| `Redaction.MaskIdempotent` | server/routes.ts:62-67 | masking a masked line changes nothing |
| `Redaction.MaskAddsOnlyStars` | server/routes.ts:62-66 | masking introduces no character other than `*` |
| `Redaction.MaskRevealsNothingNew` | server/routes.ts:62-66 | a word without `*` found in a lower-cased masked line was already in the lower-cased original |
| `Redaction.MaskedKeptHasNoSignature` | server/routes.ts:55-67 | a kept line, once masked, does not show the vendor signature in any ASCII case |
| `Redaction.MaskAll` | server/routes.ts:62-67 | the map masks every kept line and keeps their number and order |
| `Redaction.Redact` | server/routes.ts:54-67 | processed line `k` is the mask of the line at the `k`-th kept position of the reply, and there are as many processed lines as kept positions |
| `Redaction.ProcessedHasNoSignature` | server/routes.ts:54-67 | no processed line shows the vendor signature, in any ASCII case |
| `Redaction.ProcessedHasNoBreak` | server/routes.ts:52-67 | no processed line holds a line break |
| `Redaction.ProcessedEndsWithStar` | server/routes.ts:62-67 | every processed line is non-empty and ends with `*` |
| `Redaction.Report` | server/routes.ts:72-74 | every report starts with the warning header, whatever the reply |
| `Redaction.JoinedIsNotNotFound` | server/routes.ts:72-74 | the joined lines of a non-empty result never read as the not-found notice |
| `Redaction.NotFoundIffNothingProcessed` | server/routes.ts:72-74 | the report is the header plus the not-found notice exactly when no processed line remains |
| `Redaction.NothingProcessedIff` | server/routes.ts:51-67 | no processed line remains exactly when no line of the reply passes the filter |
| `Redaction.NotFoundIff` | server/routes.ts:51-74 | the report is the header plus the not-found notice exactly when no line of the reply passes the filter |
| `Redaction.EmptyReplyNotFound` | server/routes.ts:51-74 | an empty reply gives the header plus the not-found notice |
| `Redaction.Spread` | server/routes.ts:73 | the masked lines with a blank line between neighbours: masked line `k` at position `2k`, blank lines between |
| `Redaction.JoinBlankLines` | server/routes.ts:73 | joining with `"\n\n"` is joining the spread lines with `"\n"` |
| `Redaction.HeaderLinesUnbroken` | server/routes.ts:43-45 | the three header lines hold no line break |
| `Redaction.NoticeUnbroken` | server/routes.ts:74 | the not-found notice holds no line break |
| `Redaction.SplitHeader` | server/routes.ts:43-45 | the header reads as its three lines and a blank line, ahead of whatever follows |
| `Redaction.BodyLines` | server/routes.ts:72-74 | after the header come the masked lines with blank lines between them, or the single not-found line |
| `Redaction.ReportLines` | server/routes.ts:43-74 | the report read line by line is the three header lines, a blank line, then the masked kept lines separated by blank lines or the not-found line |
| `SearchEndpoint.StatusCode` | server/routes.ts:69-76 | a success is sent with the default status 200 and a failure with 500, and no other status occurs |
| `SearchEndpoint.RawData` | server/routes.ts:51 | the text of the latest message, or the empty string when there is none |
| `SearchEndpoint.Search` | server/routes.ts:69-76 | status 200 exactly for a completed exchange; success always carries the team's unit name, `success_beep` and a header-prefixed report; every error inside the `try` gives `{Timeout, error_buzz}` |
| `SearchEndpoint.FailuresIndistinguishable` | server/routes.ts:76 | delivery, fetch and internal failures give the same response, with status 500 |
| `SearchEndpoint.NoMessageNotFound` | server/routes.ts:50-74 | no message and an empty message both give the header plus the not-found notice |
| `SearchEndpoint.SuccessReportLines` | server/routes.ts:69-74 | a successful response's report reads as the header lines followed by the masked kept lines or the not-found line |
| `SessionStore.SessionFile` | server/routes.ts:32 | the file content is the fixed export prefix, then the session string as it is, then the closing quote and semicolon |
| `SessionStore.PersistSession` | server/routes.ts:29-33 | a write happens exactly when the live session differs from the saved one, and it writes the template for the live session |
| `SessionStore.LoadSession` | server/routes.ts:9 | whatever the import reads back, written through the template, reproduces the file |
| `SessionStore.PersistThenLoad` | server/routes.ts:29-33 | a written file reads back as the live session, and deciding again against it writes nothing: one write per change |
| `SessionStore.UnescapedQuoteDoesNotLoad` | server/routes.ts:32 | a session holding a double quote is written unescaped and does not read back |

## Left out

- The Telegram client is not modelled. This covers its construction, `client.start` with the interactive phone and OTP prompts, `sendMessage` and `getMessages` (`server/routes.ts:13-27`, `47`, `50`). These are network calls into a foreign library. Their outcome is the `OracleReply` input, and the phone number, which is only forwarded to the bot, is not an input.
- The 8-second `setTimeout` wait (`server/routes.ts:48`) is timing only.
- Concurrent requests that read the same latest message are not modelled. This follows from leaving the client out; the model has no shared state.
- `fs.writeFileSync`, `path.join` and the `console.log` calls (`server/routes.ts:31-34`, `21`, `25`, `36`) are I/O. Only the write decision and the file content are modelled.
- `new StringSession(savedSession || "")` (`server/routes.ts:15`) hands the saved session to the client. It belongs to the client start-up that is left out.
- An error thrown before the `try`, by `const { phone } = req.body` (`server/routes.ts:41`), is left to Express and does not get the `Timeout` shape; the model covers only the `try`.
- Express routing, `req.body`, `res.json`, `res.status` and `httpServer` are framework plumbing. The status code is the `StatusCode` function of the response.
- `Strings.Lower`: models `toLowerCase` on ASCII letters only. Unicode case mapping, which can change a string's length, is not modelled. This changes which lines are kept: JavaScript maps U+212A KELVIN SIGN to `k`, so the code drops a line holding `hitec` U+212A `groop` as signed, while the model keeps it. The signature results therefore hold for ASCII case only.
- `Redaction.Mask`: lines holding characters outside the Basic Multilingual Plane are not modelled faithfully. A Dafny `char` is one Unicode scalar value, while JavaScript counts such a character as two UTF-16 code units, so on those lines the model's split point (half the scalar count) differs from the code's (half the code-unit count), and the code's cut between the two halves of a surrogate pair cannot be written at all.
- `SessionStore.LoadSession`: reads back only files whose session needs no escape in a double-quoted literal. For any other file it gives nothing instead of the session that TypeScript's escape rules would produce.
- The client files `client/src/pages/dashboard.tsx` and `client/src/App.tsx` are not part of this model. They hold presentation, animation, speech and audio.
