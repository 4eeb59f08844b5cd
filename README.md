# Document-analysis dashboard: verified model of its text logic

The dashboard is a Next.js page. It extracts the text of an uploaded PDF, sends questions about the document to a chat backend, renders the model's list of signatories as a table, and lists the Kubernetes services of its cluster through an API route. This project models the parts of that code with real logic, as Dafny functions, methods and a class, and proves what they do:

- **Signatory table** (`signatories.dfy`). `parseContent` inside `signatoryTable` splits the answer into lines and keeps those with a hyphen. It splits each line with the regular expression `/-(.+)/`, trims the pieces, drops the empty ones and strips one leading list number. The table numbers the rows from 1. The regex split follows the loop of ECMAScript's `RegExp.prototype[@@split]`: `.` stops at line terminators and the match is greedy.
- **Page text** (`pdf_text.dfy`). The page-by-page `text +=` loop is a method. It is proved against a specification function. Under the upload test it shows a fixed message when the text is empty.
- **Drag highlight** (`drag_drop.dfy`). The `dragActive` flag is a field of a class. Its two handlers are methods.
- **Backend address** (`api_url.dfy`). `apiUrl` is derived from `window.location.origin`.
- **Chat round** (`chat_answer.dfy`). This covers the send guard, the `||`/`&&` fallback chain that picks the answer out of the JSON reply, and the entry the round adds.
- **Cluster services** (`k8s_services.dfy`). This is the projection of the listed services to summary records, plus the success and error payloads.

`js_strings.dfy` holds the JavaScript string built-ins the page uses: `trim`, `split` (on one character, and `split(":3000")[0]` through a substring search), `join`, and number-to-decimal rendering. `wrappers.dfy` holds `Option`, where `None` stands for `undefined` (or a `null` treated alike).

Verify the proofs with `dafny verify --resource-limit 2000000 --verification-time-limit 0 *.dfy` (Dafny 4.11).

## Model

| member | source | states |
|---|---|---|
| JsStrings.Trim | app/page.tsx:399-403 | the result is a slice of the input with only white space before and after it, and it neither starts nor ends with white space, so it is the input with exactly its surrounding white space removed |
| JsStrings.TrimBothEnds | app/page.tsx:399-403 | cutting leading and then trailing white space leaves a slice of the input between two all-white-space parts |
| JsStrings.TrimEmptyIff | app/page.tsx:399 | a string trims to "" exactly when every character is white space |
| JsStrings.SplitOn | app/page.tsx:398 | `split("\n")` gives at least one piece and no piece contains the separator |
| JsStrings.JoinSplit | app/page.tsx:398 | joining the pieces of `split("\n")` with the separator gives back the text |
| JsStrings.SplitOnAt | app/page.tsx:398 | the first separator closes the first piece and the rest is split on |
| JsStrings.SplitJoin | app/page.tsx:398 | splitting a join of separator-free pieces gives back the pieces |
| JsStrings.Join | app/page.tsx:124-127 | `join(sep)` has the parts' total length plus one separator between neighbours, and a single part comes back unchanged |
| JsStrings.IndexOf | app/page.tsx:630 | the search inside `split(":3000")`: the result is the first occurrence at or after the start, or none when there is no occurrence |
| JsStrings.FirstPiece | app/page.tsx:630 | `split(sep)[0]` is a prefix without an occurrence of `sep`, and `sep` follows it unless it is the whole string |
| JsStrings.NatToDecimal | app/page.tsx:128 | `${n}` is a non-empty digit string without a leading zero unless n = 0 |
| JsStrings.DecimalRoundTrip | app/page.tsx:128 | reading the rendered page number back gives the number |
| JsStrings.NatToDecimalInjective | app/page.tsx:128 | different page numbers give different markers |
| Signatories.RunEnd | app/page.tsx:401-402 | the greedy `.+` run stops at the first line terminator or at the end of the line |
| Signatories.SplitFrom | app/page.tsx:401-402 | the split of `/-(.+)/` always has an odd number of pieces: text, capture, text, ... |
| Signatories.RejoinSplitFrom | app/page.tsx:401-402 | the split loses exactly the matched hyphens: putting them back gives the rest of the line |
| Signatories.RejoinSplit | app/page.tsx:401-402 | the pieces of `line.split(/-(.+)/)`, rejoined with hyphens, are the line |
| Signatories.NonBlankTrimmed | app/page.tsx:403-404 | `.map(trim).filter(Boolean)` yields no more pieces than it gets, none of them empty |
| Signatories.LeadingDigits | app/page.tsx:406 | `^\d+` covers exactly the leading run of ASCII digits |
| Signatories.StripListNumber | app/page.tsx:406 | `replace(/^\d+\.\s*/, "")` returns a suffix; the name is unchanged without a list number; otherwise the result is shorter and does not start with white space |
| Signatories.LeadingDigitsOfNumber | app/page.tsx:406 | the digit run of `digits + rest` is `digits` when `rest` does not start with a digit |
| Signatories.TrimStartOfSpaces | app/page.tsx:406 | `\s*` removes exactly the leading white space |
| Signatories.StripOneListNumber | app/page.tsx:406 | `digits.` and the white space after it are removed and the rest comes out whole, even if it starts with another list number |
| Signatories.OnlyFirstListNumberStripped | app/page.tsx:406 | "1. 2. Ali" becomes "2. Ali" |
| Signatories.SplitAtHyphen | app/page.tsx:401-402 | `line.split(/-(.+)/)`, the split loop from the start of the line; its pieces are given by SplitAtFirstHyphen and RejoinSplit |
| Signatories.SplitPoint | app/page.tsx:401-402 | the split point is the first hyphen that has a character after it |
| Signatories.SplitFromSkips | app/page.tsx:401-402 | positions where the pattern does not match do not change the split |
| Signatories.SplitAtFirstHyphen | app/page.tsx:401-402 | on a line without line terminators the pieces are [before the split point, the whole remainder, ""], or the line alone when it has no split point |
| Signatories.ParseLineAtSplitPoint | app/page.tsx:400-408 | with a split point, both non-blank sides give name and position; one non-blank side becomes the name with no position; two blank sides give no signatory |
| Signatories.NamePosition | app/page.tsx:401-408 | `const [name, fullPosition] = parts` and the returned object, `None` when there is no name; stated case by case by NamePositionOfTwo |
| Signatories.ParseLine | app/page.tsx:400-408 | one line's signatory, `None` where `name.replace` throws; characterised by ParseLineAtSplitPoint, ParseLineUnsplit and ParseLineFailsIff |
| Signatories.NamePositionOfTwo | app/page.tsx:401-408 | the destructuring `[name, fullPosition]` of the non-blank sides, case by case |
| Signatories.ParseLineUnsplit | app/page.tsx:400-408 | without a split point the trimmed line is the name with no position, or there is no signatory for a blank line |
| Signatories.NonBlankTrimmedThree | app/page.tsx:403-404 | filtering the three pieces of a split keeps the non-blank trimmed ones in order |
| Signatories.TrailingHyphenIsKept | app/page.tsx:401-406 | a line whose only hyphen is its last character is not split: the whole trimmed line is the name, with no position |
| Signatories.BlankNameTakesRemainder | app/page.tsx:401-406 | when the text before the split point is blank, the text after it becomes the name, with no position |
| Signatories.ParseLineOfThreePieces | app/page.tsx:401-408 | a line split into two sides and a blank third piece parses from the non-blank trimmed sides alone |
| Signatories.ParseLineOfOnePiece | app/page.tsx:401-408 | a line the split leaves whole parses to its trimmed text as the name with no position, or to no signatory when blank |
| Signatories.ParseLineFailsIff | app/page.tsx:401-406 | a line with a hyphen yields no name exactly when only white space surrounds its split point |
| Signatories.ParseLineFailsAtSplitPoint | app/page.tsx:401-406 | at a split point, the line yields no name exactly when both sides are all white space |
| Signatories.ParseLineUnsplitSucceeds | app/page.tsx:401-406 | a line with a hyphen but no split point (its only hyphens are last) always yields a name |
| Signatories.TrimDropsTrailingSpace | app/page.tsx:402-403 | a trailing white-space character does not change the trimmed text |
| Signatories.TrimStartAppend | app/page.tsx:402-403 | trimming the start of a non-blank string commutes with appending a tail |
| Signatories.SplitWithCarriageReturn | app/page.tsx:398-402 | a "\r" left at the end of a line goes into the last piece of the split |
| Signatories.CarriageReturnIgnored | app/page.tsx:398-408 | a line ending in "\r" (a Windows line break) parses like the line without it |
| Signatories.SplitWithCarriageReturnAt | app/page.tsx:398-402 | with a split point, `line + "\r"` splits into the two sides and a third piece "\r" |
| Signatories.SplitWithCarriageReturnWhole | app/page.tsx:398-402 | without a split point, `line + "\r"` comes back whole |
| Signatories.CarriageReturnAtSplitPoint | app/page.tsx:398-408 | with a split point, the trailing "\r" lands in the blank third piece that `filter(Boolean)` drops |
| Signatories.CarriageReturnUnsplit | app/page.tsx:398-408 | without a split point, `trim` removes the trailing "\r" from the one piece |
| Signatories.IsCandidate | app/page.tsx:399 | the filter test `line.trim() && line.includes("-")`; CandidateIffHyphen shows it is the hyphen test alone |
| Signatories.CandidateIffHyphen | app/page.tsx:399 | the filter keeps a line exactly when it contains a hyphen; the `trim()` test never rejects one |
| Signatories.FilterAppend | app/page.tsx:399 | `filter` commutes with concatenation, for any test |
| Signatories.FilterMembers | app/page.tsx:399 | an element survives `filter` exactly when it is in the input and passes the test |
| Signatories.CandidateLines | app/page.tsx:399 | the filter keeps at most as many lines as it gets |
| Signatories.CandidateLinesAppend | app/page.tsx:399 | the filter commutes with concatenation, so kept lines keep their relative order |
| Signatories.CandidateLinesMembers | app/page.tsx:397-399 | a line is among the kept lines exactly when it is a line of the text and contains a hyphen |
| Signatories.MapAll | app/page.tsx:400-409 | a `map` whose callback may throw gives one result per element, in order, exactly when no element throws |
| Signatories.MapAllNoneAt | app/page.tsx:400-409 | one element whose callback throws makes the whole `map` throw |
| Signatories.MapSome | app/page.tsx:400-409 | skipping the elements without a result keeps no more results than elements |
| Signatories.MapSomeIsFilterThenMap | app/page.tsx:400-409 | skipping the elements without a result equals the throwing `map` over the elements that have one, so the results keep element order |
| Signatories.MapSomeAgrees | app/page.tsx:400-409 | where every element has a result, skipping changes nothing |
| Signatories.MapSomeLength | app/page.tsx:400-409 | skipping drops exactly the elements without a result |
| Signatories.MapSomeFrom | app/page.tsx:400-409 | every result kept comes from an element |
| Signatories.CountNonePositive | app/page.tsx:400-409 | an element without a result is counted |
| Signatories.KeptLines | app/page.tsx:397-399 | `text.split("\n").filter(...)`; its members are given by CandidateLinesMembers |
| Signatories.ParseContent | app/page.tsx:396-410 | `parseContent(text)`, `None` for the TypeError; characterised by ParseContentMeaning |
| Signatories.ParseContentMeaning | app/page.tsx:396-410 | `parseContent` succeeds exactly when every kept line has a name; it then gives one signatory per kept line, in order; the kept lines are exactly the lines with a hyphen |
| Signatories.NumberRows | app/page.tsx:458-462 | the rows of `signatories.map((person, index) => ...)`: numbered `index + 1`, holding name and position; used by TableOf and SignatoryTableFixed |
| Signatories.TableOf | app/page.tsx:458-464 | the rendered rows of a list of lines: the render throws exactly when some line has no signatory, otherwise row i is numbered i + 1 and holds line i's name and position |
| Signatories.SignatoryTable | app/page.tsx:393-412 | no table exactly for `null` or ""; the render throws exactly when some kept line has no name; otherwise row i is numbered i + 1 and holds the i-th kept line's name and position |
| Signatories.BlankBulletHasNoName | app/page.tsx:401-406 | a bullet with nothing after it ("- ") yields no name |
| Signatories.BlankBulletBreaksParse | app/page.tsx:396-410 | `parseContent` throws on any non-empty answer with a line "- " followed only by white space |
| Signatories.BlankBulletAbortsTable | app/page.tsx:393-412 | any answer with such a line renders no table at all: the render throws |
| Signatories.NamedLines | app/page.tsx:397-406 | the kept lines that yield a name, in text order: a line is among them exactly when it is a kept line with a name |
| Signatories.ParseContentFixed | app/page.tsx:396-410 | the corrected parser is `parseContent`'s own `map` over the kept lines that have a name, in text order; it drops exactly the name-less kept lines; every signatory comes from a kept line; it agrees with `parseContent` wherever that succeeds |
| Signatories.SignatoryTableFixed | app/page.tsx:393-464 | the corrected table never throws, renders a table exactly for a non-empty answer, and row i is numbered i + 1 and holds the corrected parser's i-th signatory |
| Signatories.FixedTableRendersNamedLines | app/page.tsx:393-464 | for a non-empty answer the corrected table is the original render over just the kept lines that have a name |
| Signatories.FixedTableAgrees | app/page.tsx:393-464 | wherever the original table renders or renders nothing, the corrected table is the same |
| Signatories.BlankBulletCounted | app/page.tsx:396-406 | a line "- " followed only by white space is a kept line without a name, so the answer is non-empty and some kept line is name-less |
| Signatories.BlankBulletSkippedWhenFixed | app/page.tsx:393-412 | with the corrected parser, an answer with a blank bullet renders a table that is short by at least that line |
| PdfText.PageBlock | app/page.tsx:124-128 | one page's block: "--- Sayfa n ---\n", its items joined with " ", then "\n\n"; placed by PageBlockInPlace |
| PdfText.PagesText | app/page.tsx:120-129 | the text the loop builds, as the numbered blocks of the pages; ExtractText computes it, PagesTextIsBlocks and PagesTextEmptyIff state it |
| PdfText.ExtractText | app/page.tsx:120-129 | the loop's text is the page blocks "--- Sayfa i ---\n" + items joined with " " + "\n\n", for i = 1..n in page order |
| PdfText.BlocksFromSnoc | app/page.tsx:122-129 | one more page appends its block, numbered after the others |
| PdfText.PagesTextIsBlocks | app/page.tsx:120-129 | the accumulated text equals the blocks of pages 1..n read front to back |
| PdfText.NumberedIsBlocks | app/page.tsx:120-129 | the numbered accumulation, built back to front, equals the blocks numbered 1..n read front to back |
| PdfText.NumberedSplits | app/page.tsx:120-129 | the text of the first k pages is a prefix of the whole, followed by the blocks of the later pages numbered from k + 1 |
| PdfText.PageBlockInPlace | app/page.tsx:124-128 | page k + 1's marker and text come right after the first k pages' text and before the later pages |
| PdfText.PagesTextEmptyIff | app/page.tsx:120-129 | the text is empty exactly when the document has no pages |
| PdfText.TestUploadPost | app/page.tsx:741-754 | the extracted text is the page blocks; the fallback message is shown exactly for a document without pages, otherwise the text itself |
| DragDrop.Decision | app/page.tsx:358-362 | dragenter and dragover decide "on", dragleave and drop decide "off", any other event decides nothing |
| DragDrop.AfterEvent | app/page.tsx:358-362 | the flag after one event: the event's decision, or the flag unchanged; what HandleDrag sets |
| DragDrop.DropArea.constructor | app/page.tsx:67 | the area starts un-highlighted |
| DragDrop.DropArea.HandleDrag | app/page.tsx:354-363 | the new flag is the event's decision, or the old flag for any other event type |
| DragDrop.DropArea.HandleDrop | app/page.tsx:365-368 | after a drop the flag is off, whatever came before |
| DragDrop.AfterEventsSnoc | app/page.tsx:354-363 | handling one more event applies it to the flag reached so far |
| DragDrop.FlagFollowsLastDecision | app/page.tsx:354-363 | after any event sequence the flag is what the last deciding event set, or the starting value when none decided |
| DragDrop.EndsOffAfterLeaveOrDrop | app/page.tsx:360-361 | a sequence ending in dragleave or drop leaves the area un-highlighted |
| DragDrop.EndsOnAfterEnterOrOver | app/page.tsx:358-359 | a sequence ending in dragenter or dragover leaves the area highlighted |
| DragDrop.OtherEventKeepsFlag | app/page.tsx:358-362 | any other event type leaves the flag where the earlier events put it |
| ApiUrl.BaseUrl | app/page.tsx:630 | the base is a prefix of the origin that contains no ":3000", and ":3000" follows it unless it is the whole origin |
| ApiUrl.ApiUrlOf | app/page.tsx:626-638 | `apiUrl` stays `null` exactly when the origin is empty or starts with ":3000"; otherwise it ends in ":3001" and what precedes that is a prefix of the origin |
| ApiUrl.NoEarlierDevPort | app/page.tsx:630 | no ":3000" can start inside a prefix that has none, since ':' occurs only at the pattern's start |
| ApiUrl.DevOriginSwapsPort | app/page.tsx:630-636 | an origin `prefix:3000...` gives `prefix:3001` |
| ApiUrl.OtherOriginAppendsPort | app/page.tsx:630-636 | an origin without ":3000" gets ":3001" appended to the whole origin |
| ChatAnswer.QuestionToSend | app/page.tsx:323-325 | a question is sent exactly when it is not all white space and the backend address is set and non-empty; what is sent is `question.trim()`, which is non-empty and has no surrounding white space |
| ChatAnswer.TrimmedQuestionSentAsTyped | app/page.tsx:323-325 | a question without surrounding white space is sent as typed |
| ChatAnswer.ResponseText | app/page.tsx:338-341 | the answer is undefined (the handler throws) exactly when the body is `null`; otherwise it is always truthy |
| ChatAnswer.ReplyContent | app/page.tsx:340 | `data.reply && data.reply.message && data.reply.message.content`; ReplyContentIsLookup relates it to the path lookup |
| ChatAnswer.ReplyContentIsLookup | app/page.tsx:340 | the `&&` chain is truthy exactly when `reply.message.content` looked up as a path is, and then equals it |
| ChatAnswer.AnswerIsFirstTruthy | app/page.tsx:338-341 | the answer is the first truthy one of `response` and `reply.message.content`, else "Yanıt alınamadı." |
| ChatAnswer.StringResponseWins | app/page.tsx:338-339 | a non-empty string `response` is shown verbatim, whatever `reply` holds |
| ChatAnswer.NothingUsableFallsBack | app/page.tsx:338-341 | without a usable `response` or content, the fixed no-answer text is shown |
| ChatAnswer.ReplyEntry | app/page.tsx:329-350 | the round adds an error entry "Bir hata oluştu." exactly when the request failed or the body is `null`, and otherwise an answer entry with a truthy text equal to the answer |
| K8sServices.MapSeq | app/api/k8s/services/route.ts:21-34 | `map` gives one result per element, each the callback's result for that element, in order |
| K8sServices.MapSeqAppend | app/api/k8s/services/route.ts:21-34 | mapping a concatenation maps each part, so the projection never reorders or merges elements |
| K8sServices.PortOf | app/api/k8s/services/route.ts:27-29 | one port's `{port, targetPort, protocol}`; stated by PortsCopied |
| K8sServices.PortsOf | app/api/k8s/services/route.ts:26-30 | `spec?.ports?.map(...) \|\| []`; stated by PortsCopied |
| K8sServices.ExternalUrl | app/api/k8s/services/route.ts:31-32 | the address is the host name when that is a non-empty string, otherwise the ip, even if absent |
| K8sServices.ExternalUrlsOf | app/api/k8s/services/route.ts:31-33 | `status?.loadBalancer?.ingress?.map(...) \|\| []`; stated by ExternalUrlsFromIngress and NoIngressNoUrls |
| K8sServices.Summarize | app/api/k8s/services/route.ts:21-34 | one service's summary record; stated field by field by SummaryFieldsFromParents, PortsCopied and ExternalUrlsFromIngress |
| K8sServices.ServicesResponse | app/api/k8s/services/route.ts:21-50 | `count` always equals the length of `services`; a failed listing gives exactly the error payload with status 500 and no services; a successful one gives status 200 and one summary per service, in order |
| K8sServices.OneSummaryPerService | app/api/k8s/services/route.ts:21-39 | on success the count is the number of listed services and summary i belongs to service i |
| K8sServices.SummariesConcatenate | app/api/k8s/services/route.ts:21-34 | listing more services appends their summaries after the earlier ones |
| K8sServices.SummaryFieldsFromParents | app/api/k8s/services/route.ts:22-25 | name and namespace are copied from metadata when it is present, and type and cluster IP from spec; each is absent when its parent is |
| K8sServices.PortsCopied | app/api/k8s/services/route.ts:26-30 | the ports are empty when `spec.ports` is absent; otherwise there is one per upstream port, in order, with port, target port and protocol copied |
| K8sServices.ExternalUrlsFromIngress | app/api/k8s/services/route.ts:31-33 | there is one address per load-balancer ingress, in order: its host name when non-empty, otherwise its ip |
| K8sServices.UndefinedAddressIff | app/api/k8s/services/route.ts:31-32 | an address is undefined exactly when the ingress has neither a non-empty host name nor an ip |
| K8sServices.NoIngressNoUrls | app/api/k8s/services/route.ts:31-33 | without an ingress list at any level there are no external addresses |

## Left out

- Rendering: JSX, styles, `renderAnalysisResult`'s markup and `handleDownloadJSON`. These are UI and browser APIs. The signatory table is modelled as the rows it would render.
- pdf.js: loading the library and the calls `getDocument`, `getPage` and `getTextContent` are a foreign library. A document is given as the item strings of its pages. An item without a `str` would join as ""; this is not modelled.
- `extractTextFromPDF` after the loop: setting the state and the question box are UI updates. Only the text it builds is modelled.
- Chat state: the `setChatHistory` updates at app/page.tsx:326 and 343 depend on React's closure semantics, and `setQuestion("")` at app/page.tsx:327 clears the input box. Both are UI state updates. ChatAnswer.ReplyEntry models the entry each round adds, not the list it is added to or the cleared box.
- The `fetch` of the chat request and `res.json()` are network I/O. Their outcome is the parameter `ChatReply`: a failure or the parsed body.
- `handleChat` (app/page.tsx:802-831) is a second sender to `/api/chat`, with its `chatLoading` flag and `aiResponse` text. It is not part of this model; only `handleQuestionSubmit` is.
- The proxy routes (app/api/chat, testchat, pdfanalysis, upload, upload/finalize, uploadTest) and server/index.js are network relays with at most one guard each. They are not part of this model.
- The Kubernetes client: configuration loading, the in-cluster switch and the listing call (app/api/k8s/services/route.ts:9-19) are an external client. Their outcome is the parameter `listing`. `NextResponse.json`'s serialisation, where an `undefined` field is omitted and an `undefined` array entry becomes `null`, is not modelled.
- next.config.js and middleware.ts are configuration. The middleware passes every request through.
- DragDrop.DropArea.HandleDrop: what the handler does with the dropped file (type check, alert, setting the file) is UI and is not modelled. Only the flag is.
- ApiUrl.ApiUrlOf: the server-side rendering case, where `window` is undefined and `apiUrl` stays `null`, is not modelled. The model takes the state after both effects have run in the browser.
- Signatories.SplitAtFirstHyphen, ParseLineAtSplitPoint, ParseLineFailsIff and the lemmas built on them are stated for lines without line terminators. A line may still hold "\r", U+2028 or U+2029 after `split("\n")`, and `.` stops at those. SplitFrom and ParseLine model such lines, but only a single trailing "\r" is characterised, by Signatories.CarriageReturnIgnored.
- Strings are sequences of Unicode scalar values, while JavaScript strings are UTF-16 code units. Lengths differ for characters outside the Basic Multilingual Plane, but nothing modelled here depends on lengths of such characters.
- JSON numbers are modelled as `real`. Only their truthiness matters here.

## Findings

| source | as written | input that shows it | evidently intended | confidence | as-written member | corrected member |
|---|---|---|---|---|---|---|
| app/page.tsx:401-406 | a kept line whose text on both sides of its split point is blank, such as a bare bullet "- ", leaves `name` undefined, so `name.replace` throws and the whole signatory table fails to render | an answer "1. Ali - CEO\n- " | skip the name-less line and render the other rows | medium, not executed | Signatories.BlankBulletAbortsTable | Signatories.SignatoryTableFixed |
