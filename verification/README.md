# A Dafny model of the study hub's client logic

The study hub is a college resource portal written in TypeScript and React. This project models the four pieces of its client logic that make decisions, as immutable values and pure functions:

- **The submission repository and the review workflow.** Students submit notes, and faculty approve or reject them. The model covers:
  - the stored list, seeded with a four-record fixture on the first read (`SubmissionStore`);
  - the `useSubmissions` hook (`SubmissionsHook`);
  - the faculty dashboard's filter, counters and approve/reject handlers (`FacultyDashboard`);
  - the student's e-mail search (`MySubmissionsPage`);
  - the submit form's mapping into a new record (`SubmitForm`).
- **The bookmark list** of `useBookmarks` (`Bookmarks`).
- **The catalog facet filters.** These are the main catalog page's bookmark/department/type/semester/search filter (`CatalogFilter`) and the previous-year-paper page's filters, year and subject lists, and selector handlers (`PyqFilter`).
- **The FAQ chatbot.**
  - `EventStream` covers the incremental decoder for the relay's server-sent event stream: the line buffer, `\r` stripping, comment and blank lines, `data: ` payloads, the `[DONE]` marker, the put-back of a line whose payload fails to parse, and the assistant-message snapshot.
  - `Chatbot` covers `sendMessage`: its guard, the user message, the history sent, and the apology shown on failure.

Shared vocabulary lives in `ResourceTypes`. The JavaScript built-ins the code relies on are modelled in `Text` (`trim`, `toLowerCase`, `includes`, `startsWith`, `endsWith`), `Numbers` (number-to-string and `parseInt`) and `Seqs` (`filter`, `[...new Set(xs)]`, numeric sort). `Optional` provides the wrappers `Option` and `Facet` (a value or the `'all'` sentinel).

Things outside the program are parameters:
- local storage is a `Store` value threaded through the operations;
- `Date.now()` and today's date are arguments;
- the catalogs and the subject table are arguments;
- `JSON.parse` of a stream payload, with the `choices[0].delta.content` lookup, is a function `parse: string -> Delta`;
- the network exchange of a chat message is a `Reply` value: refused, or a sequence of decoded text chunks, possibly interrupted.

## Behaviour kept from the code

Two behaviours of the chat stream decoder are easy to misread from its comments. The model follows the code:

- **`[DONE]` only ends the current pass over the buffer.** It does not end the read loop. Lines after the marker stay buffered and are read when the next chunk arrives, so whether they are shown depends on where the chunks are cut. `EventStream.DoneOnlyPausesReading` proves this, and `EventStream.DoneExample` instantiates it. When no line fails and nothing after the first marker has content, the text shown is the contents of the lines before the first marker whatever the chunking, as `DoneStream.DoneStreamShowsPrefix` and `DoneStream.DoneChunkingIrrelevant` prove. Only the buffer left at the end still depends on the cuts.
- **A line whose payload fails to parse is put back in front of the buffer.** That line is already complete, so every later chunk reads the same line first and fails on it again. From then on nothing more is shown, and no error is reported. `EventStream.FailureSticks`, `EventStream.StuckForever` and `Chatbot.MalformedLineEndsDisplay` prove this.

## Model

| member | source | states |
|---|---|---|
| ResourceTypes.DepartmentLabelsDistinct | src/types/resource.ts:51-57 | The department label table covers all five departments, with non-empty, pairwise distinct labels. |
| ResourceTypes.ResourceTypeLabelsDistinct | src/types/resource.ts:59-65 | The resource-type label table covers all five kinds, including previous-year questions, with distinct labels. |
| ResourceTypes.StatusLabelsDistinct | src/types/resource.ts:67-71 | The three review states have three distinct labels. |
| SubmissionStore.FixtureIdsDistinct | src/data/mockSubmissions.ts:6-72 | The fixture has four submissions with pairwise distinct ids. |
| SubmissionStore.FixtureConsistent | src/data/mockSubmissions.ts:6-72 | Each fixture submission's review fields agree with its status. Pending ones have no reviewer or date. Reviewed ones have both. A non-blank reason is present exactly on the rejected one. |
| SubmissionStore.Read | src/data/mockSubmissions.ts:74-82 | A read returns the stored list when there is one. Otherwise it returns the fixture, which is also written. Either way the store afterwards holds the list returned. |
| SubmissionStore.ReadIdempotent | src/data/mockSubmissions.ts:74-82 | A second read returns the same list and writes nothing new. |
| SubmissionStore.Save | src/data/mockSubmissions.ts:84-88 | Saving makes the list one longer. The previous list is an unchanged prefix and the new record is last. |
| SubmissionStore.FindById | src/data/mockSubmissions.ts:97 | Returns the first position holding the id, or none when no submission has it. |
| SubmissionStore.Reviewed | src/data/mockSubmissions.ts:99-105 | A review keeps every non-review field. It sets the status and reviewer, sets the date to today, and stores the reason exactly as given, so an absent reason clears an old one. |
| SubmissionStore.UpdateStatus | src/data/mockSubmissions.ts:90-108 | An update keeps the length. With an unknown id the list is as read. Otherwise only the first submission with that id is replaced, by its reviewed version. |
| SubmissionStore.UpdateUnknownIdIsNoOp | src/data/mockSubmissions.ts:96-98 | An id that is not present changes nothing beyond the first-read seeding. |
| SubmissionStore.UpdateOverwritesReviewed | src/data/mockSubmissions.ts:96-107 | The repository does not check the current status: the approved fixture record can be rejected afterwards. |
| SubmissionStore.UpdateAcceptsMissingReason | src/data/mockSubmissions.ts:99-105 | The repository does not check the reason either: a rejection without a reason is stored, leaving the record inconsistent. |
| SubmissionStore.ReadApproved | src/data/mockSubmissions.ts:110-112 | The approved submissions form an order-preserving subsequence of the read list. They are exactly the approved ones, each with its multiplicity in the read list, and the read's seeding still happens. |
| SubmissionsHook.SubmissionIdsCollideIffSameClock | src/hooks/useSubmissions.ts:21 | Two new ids are equal exactly when the clock read the same value both times. |
| SubmissionsHook.MakeSubmission | src/hooks/useSubmissions.ts:18-24 | A new record is pending, dated today, with id `sub-` plus the clock. Every other field is copied from the input, including optional review fields. |
| SubmissionsHook.AddSubmission | src/hooks/useSubmissions.ts:18-28 | After adding, the hook's list is the previously readable list with the created record appended, and the store holds that list. |
| SubmissionsHook.TwoAdditions | src/hooks/useSubmissions.ts:18-28 | Two additions append two records in call order. Their ids differ exactly when the clock readings differ. |
| SubmissionsHook.UpdateStatusHook | src/hooks/useSubmissions.ts:30-38 | The hook forwards its arguments to the repository update unchanged. Its list is then the updated stored list. |
| SubmissionsHook.ByStatus | src/hooks/useSubmissions.ts:44-46 | Returns exactly the submissions with the status, in list order, each as often as in the list. |
| SubmissionsHook.MySubmissions | src/hooks/useSubmissions.ts:48-50 | Returns exactly the submissions whose e-mail equals the argument (case-sensitive), in list order, each as often as in the list. |
| SubmissionsHook.AddKeepsConsistency | src/hooks/useSubmissions.ts:18-27 | Adding a record without review data keeps every stored record review-consistent. |
| FacultyDashboard.FilteredSubmissions | src/pages/FacultyDashboard.tsx:36-39 | `'all'` shows the list unchanged. A status shows the order-preserving subsequence with that status, and all of it, each submission as often as in the list. |
| FacultyDashboard.CountsCoverList | src/pages/FacultyDashboard.tsx:41-43 | The pending, approved and rejected counters add up to the number of submissions. |
| FacultyDashboard.HandleApprove | src/pages/FacultyDashboard.tsx:45-48 | Approve sets the first matching record to approved by the faculty member, dated today, with any old reason cleared. Every other record is unchanged. An unknown id changes nothing. |
| FacultyDashboard.OpenRejectDialog | src/pages/FacultyDashboard.tsx:60-63 | Opening the dialog selects the submission and shows the dialog, without touching the typed reason or the store. |
| FacultyDashboard.HandleReject | src/pages/FacultyDashboard.tsx:50-58 | Without a selected submission or with a blank reason nothing happens. Otherwise the untrimmed reason is stored with a rejection, and the dialog is cleared and closed. |
| SubmissionStore.UpdateKeepsConsistency | src/data/mockSubmissions.ts:90-108 | A review whose reason is present, and not blank, exactly for a rejection keeps every stored record review-consistent. |
| FacultyDashboard.ApproveKeepsConsistency | src/pages/FacultyDashboard.tsx:45-46 | Approving from the page keeps every record review-consistent. |
| FacultyDashboard.RejectKeepsConsistency | src/pages/FacultyDashboard.tsx:50-52 | Rejecting from the page keeps every record review-consistent, because the page's guard supplies a non-blank reason. |
| FacultyDashboard.OfferedApproveMovesPendingToApproved | src/pages/FacultyDashboard.tsx:180-185 | With unique ids, approving a record whose buttons are shown, which only pending records have, moves exactly that record to approved. |
| MySubmissionsPage.FilterByEmail | src/pages/MySubmissions.tsx:17-22 | A blank filter shows all submissions. Otherwise it shows exactly those whose lowercased e-mail contains the lowercased, untrimmed filter, in order, each as often as in the list. |
| MySubmissionsPage.WholeAddressFindsOwnSubmissions | src/pages/MySubmissions.tsx:19-21 | Searching for a submission's own address always lists it, including a blank address, which lists everything. |
| SubmitForm.FileNameOrDefault | src/components/StudentSubmitModal.tsx:58 | The chosen file name, or `document.pdf` when none was chosen or the name is empty. |
| SubmitForm.ToNewSubmission | src/components/StudentSubmitModal.tsx:51-62 | The form fields are copied verbatim and the student name becomes the submitter. The file URL and size are fixed constants, and there is no review data. |
| SubmitForm.HandleSubmit | src/components/StudentSubmitModal.tsx:48-62 | A submission is a pending note or assignment appended to the list, and a consistent store stays consistent. |
| Bookmarks.InitialBookmarks | src/hooks/useBookmarks.ts:6-12 | The initial list is the stored list, or empty when nothing is stored. |
| Bookmarks.Toggle | src/hooks/useBookmarks.ts:18-24 | A present id is removed everywhere it occurs. An absent id is appended at the end. |
| Bookmarks.ToggleFlips | src/hooks/useBookmarks.ts:18-26 | After a toggle, `isBookmarked` of that id is the negation of its old value. |
| Bookmarks.ToggleKeepsOthers | src/hooks/useBookmarks.ts:18-24 | A toggle leaves every other id's membership unchanged. |
| Bookmarks.ToggleKeepsDistinct | src/hooks/useBookmarks.ts:18-24 | A duplicate-free list stays duplicate-free. |
| Bookmarks.ToggleTwiceRestoresMembership | src/hooks/useBookmarks.ts:18-24 | Toggling an id twice restores every id's membership. |
| Bookmarks.ToggleTwiceMayReorder | src/hooks/useBookmarks.ts:20-22 | Toggling twice does not restore order: the id comes back last. |
| CatalogFilter.FilterResources | src/pages/Index.tsx:26-61 | The result is an order-preserving subsequence of the catalog. It holds exactly the resources that pass every active criterion: bookmarked when that is on, the selected facets, and the search. |
| CatalogFilter.SequentialIsConjunctive | src/pages/Index.tsx:26-60 | The five conditional filters applied in sequence equal one filter by the conjunction of the active criteria. |
| CatalogFilter.UnfilteredShowsAll | src/pages/Index.tsx:27-60 | With bookmarks off, every facet `'all'` and an empty query, the whole catalog is shown. |
| CatalogFilter.BlankQueryIgnored | src/pages/Index.tsx:50-57 | A whitespace-only query leaves the result as without a query. |
| PyqFilter.AvailableYears | src/pages/PYQPage.tsx:28-31 | The year options are strictly descending, so duplicate-free. They contain no zero and are exactly the non-zero years present in the papers. |
| PyqFilter.AvailableSubjects | src/pages/PYQPage.tsx:33-38 | For `'all'` the options are the distinct non-empty subjects of the papers, in order of first appearance. For a department they are its table entry, or empty when it has none. |
| PyqFilter.FilterPyqs | src/pages/PYQPage.tsx:40-70 | The result is an order-preserving subsequence of the papers. It holds exactly those passing department, semester, subject, year and search, where a missing subject or year never matches a selection. |
| PyqFilter.SequentialIsConjunctive | src/pages/PYQPage.tsx:40-69 | The five conditional filters in sequence equal one conjunctive filter. |
| PyqFilter.InitialShowsAll | src/pages/PYQPage.tsx:20-24 | In the page's initial state every paper is listed. |
| PyqFilter.YearOptionSelectsYear | src/pages/PYQPage.tsx:55-57 | A year option never reads as `'all'`, and selecting it lists exactly the papers of that year. |
| PyqFilter.SelectSemester | src/pages/PYQPage.tsx:129-133 | `'all'` clears the semester facet. Any other value selects the semester that `parseInt` reads from it. |
| PyqFilter.SemesterOptionRoundTrip | src/pages/PYQPage.tsx:130-144 | Every semester option selects its own semester. |
| PyqFilter.SelectDepartment | src/pages/PYQPage.tsx:111-114 | Changing the department resets the subject to `'all'` and keeps the other criteria. |
| PyqFilter.DepartmentChangeIgnoresSubject | src/pages/PYQPage.tsx:111-114 | After a department change a paper is listed exactly when it passes the new department and the unchanged semester, year and search. |
| Numbers.ParseIntRoundTrip | src/pages/PYQPage.tsx:56 | `parseInt` of an integer's decimal rendering gives back that integer. |
| Numbers.IntToStringInjective | src/hooks/useSubmissions.ts:21 | Distinct integers render to distinct texts. |
| Seqs.SortDescending | src/pages/PYQPage.tsx:30 | The numeric sort returns the same multiset of values, largest first. |
| Seqs.DedupFirstAppearance | src/pages/PYQPage.tsx:35 | `[...new Set(xs)]` lists values in order of first appearance. |
| EventStream.IndexOf | src/components/FAQChatbot.tsx:66 | Returns the first position of the character, or none when it does not occur. |
| EventStream.StripCR | src/components/FAQChatbot.tsx:70 | Removes exactly one trailing `\r`, and only when there is one. |
| EventStream.ClassifyIgnoresCR | src/components/FAQChatbot.tsx:70-75 | A line is skipped, ends the pass or carries a payload the same way whether or not the `\r` is stripped. |
| EventStream.MarkerAndDataLines | src/components/FAQChatbot.tsx:71-81 | `data: [DONE]` ends the pass, and a `data: ` line contributes its trimmed payload's content. |
| EventStream.Snapshot | src/components/FAQChatbot.tsx:83-89 | The last message becomes the assistant text. An earlier assistant message is replaced; otherwise one is appended. Earlier messages are untouched. |
| EventStream.Drain | src/components/FAQChatbot.tsx:65-95 | One pass of the inner loop only extends the assistant text and never grows the buffer. |
| EventStream.Advance | src/components/FAQChatbot.tsx:79-90 | Consuming a line appends its content to the text. Empty content leaves the messages alone. |
| EventStream.DrainReadsLines | src/components/FAQChatbot.tsx:65-95 | The inner loop over the raw buffer equals the line-by-line reading of its complete lines and incomplete tail. |
| EventStream.LinesJoinTail | src/components/FAQChatbot.tsx:66-68 | Splitting at newlines loses nothing: the lines, rejoined, followed by the tail, are the buffer. |
| EventStream.LinesOfAppend | src/components/FAQChatbot.tsx:63-68 | Appending a chunk adds lines only after the old complete lines, starting from the old tail. |
| EventStream.ReadLinesText | src/components/FAQChatbot.tsx:79-81 | The text gains the contents of the lines before the first `[DONE]` or failure, in order. |
| EventStream.ReadLinesStops | src/components/FAQChatbot.tsx:74-94 | After `[DONE]` the later lines stay buffered. After a failure the failed line, without its `\r`, is put back in front of them. |
| EventStream.DrainClean | src/components/FAQChatbot.tsx:65-95 | A buffer whose lines all pass is consumed up to its incomplete tail, and their contents are added. |
| EventStream.FeedAllBuffer | src/components/FAQChatbot.tsx:60-96 | Over a stream whose lines all pass, exactly the incomplete last line stays buffered. |
| EventStream.FeedAllText | src/components/FAQChatbot.tsx:60-96 | Over a stream whose lines all pass, the text is the contents of all complete lines, whatever the chunking. |
| EventStream.FeedAllShows | src/components/FAQChatbot.tsx:83-89 | After every chunk the chat shows the conversation plus one assistant message holding exactly the text so far, or none while there is no text. |
| EventStream.ChunkingIrrelevant | src/components/FAQChatbot.tsx:58-96 | Two ways of cutting the same stream whose lines all pass end in the same buffer, text and messages. |
| EventStream.CleanStreamShowsAll | src/components/FAQChatbot.tsx:58-96 | A stream whose lines all pass shows all its complete lines' contents and keeps its incomplete last line. |
| EventStream.EffectIgnoresCR | src/components/FAQChatbot.tsx:70 | A trailing `\r` never changes what a line does. |
| EventStream.InterpreterIgnoresCR | src/components/FAQChatbot.tsx:70 | The decoder's line reading gives the same effect with or without a trailing `\r`. |
| EventStream.FailureSticks | src/components/FAQChatbot.tsx:91-94 | For any line reading that ignores a trailing `\r`, a failing line is put back first, so the decoder is stuck on it. |
| EventStream.FeedWhileStuck | src/components/FAQChatbot.tsx:60-94 | For any line reading that ignores a trailing `\r`, a stuck decoder reads the same line again on the next chunk, fails again, and leaves text and messages unchanged. |
| EventStream.StuckForever | src/components/FAQChatbot.tsx:60-96 | Once stuck, no later chunk changes the text or the messages. |
| EventStream.DoneOnlyPausesReading | src/components/FAQChatbot.tsx:75 | A line after `[DONE]` in the same chunk stays buffered and unshown. The same line in the next chunk is read and shown. |
| EventStream.DoneExample | src/components/FAQChatbot.tsx:74-75 | With payloads taken as content, `data: [DONE]` then `data: hi` shows nothing in one chunk, and `hi` in two. |
| DoneStream.LinesOfJoin | src/components/FAQChatbot.tsx:66-68 | Newline-free lines written back with their newlines, followed by a text, split again into the same lines and then the text's own. |
| DoneStream.ReadLinesQuiet | src/components/FAQChatbot.tsx:74-90 | Reading lines that are end markers or carry no content leaves the text and messages unchanged. |
| DoneStream.QuietDrain | src/components/FAQChatbot.tsx:65-95 | A pass over such lines changes neither text nor messages, and what stays buffered, with the rest of the stream, again holds only such lines. |
| DoneStream.FeedAllQuiet | src/components/FAQChatbot.tsx:60-96 | Chunks whose lines are all end markers or empty change neither text nor messages. |
| DoneStream.ClearedAfterClean | src/components/FAQChatbot.tsx:74-81 | After lines that all pass, the reading continues into what follows and adds their contents first. |
| DoneStream.ClearedStopsEarly | src/components/FAQChatbot.tsx:74-81 | A reading that stops inside a prefix adds nothing from what follows it. |
| DoneStream.DoneStreamText | src/components/FAQChatbot.tsx:60-96 | When no line fails and nothing after the first `[DONE]` has content, the text is the contents of the lines before the first `[DONE]`, however the stream is cut into chunks. |
| DoneStream.DoneStreamShowsPrefix | src/components/FAQChatbot.tsx:58-96 | Such a whole stream shows exactly those contents as one assistant message after the conversation. |
| DoneStream.DoneChunkingIrrelevant | src/components/FAQChatbot.tsx:58-96 | Two cuts of such a stream end with the same text and messages. |
| Chatbot.SendMessage | src/components/FAQChatbot.tsx:33-106 | Blank text or a send while loading changes nothing and sends nothing. Otherwise the history plus the trimmed user message is sent and the input is cleared. The chat shows one assistant message with the text read (none if empty), then the apology on failure, and loading is over. |
| Chatbot.UserMessageIsTrimmed | src/components/FAQChatbot.tsx:34-36 | The added user message is the trimmed text, never empty and already trimmed, after the earlier messages. |
| Chatbot.RefusedShowsApology | src/components/FAQChatbot.tsx:97-102 | A request that fails outright shows the user message followed by exactly one apology. |
| Chatbot.CleanReplyShowsContents | src/components/FAQChatbot.tsx:58-96 | A complete reply whose lines all pass shows their contents as one assistant message, without an apology. |
| Chatbot.ChunkBoundariesInvisible | src/components/FAQChatbot.tsx:58-96 | For a reply whose lines all pass, the chunk boundaries do not change the outcome. |
| Chatbot.DoneReplyShowsPrefix | src/components/FAQChatbot.tsx:58-96 | A complete reply ending at `[DONE]`, with nothing failing and nothing shown after the first marker, displays the contents of the lines before it as one assistant message, without an apology. |
| Chatbot.DoneChunkBoundariesInvisible | src/components/FAQChatbot.tsx:58-96 | For such a reply the chunk boundaries do not change the outcome. |
| Chatbot.InterruptedKeepsPartialReply | src/components/FAQChatbot.tsx:97-102 | A read error keeps the text already shown and adds exactly one apology after it. |
| Chatbot.MalformedLineEndsDisplay | src/components/FAQChatbot.tsx:91-94 | Once a line fails to parse, the rest of the stream changes nothing and no apology is shown. |

## Left out

- **Local storage and JSON serialisation.** The submission key is a `Store` value, `None` while the key is absent. The bookmark key is an `Option<seq<string>>`. The write-back `useEffect` of the bookmarks is not modelled.
- **Aliasing of the fixture array.** Only a read that finds the key absent returns the module-level fixture array itself (src/data/mockSubmissions.ts:79-81); once the key is set, every read returns a fresh parse (:76-77). A save or review that follows a seeding read mutates that array in place, so if storage were cleared later in the same session, the next seeding would write the mutated array. The model seeds with the original fixture every time.
- **`Date.now()` and `toISOString().split('T')[0]`.** They are the parameters `now` and `today`.
- **React state plumbing, toasts, dialogs' open/close animations, `setTimeout` resets and rendering.** Only the state each handler computes is modelled.
- **The loading flag while a reply is read.** `Chatbot.SendMessage` gives the state after `sendMessage` has finished. The intermediate state (loading true, partial reply shown) is covered by the `EventStream` lemmas about each chunk.
- **`fetch`, the response status check, `TextDecoder` and `JSON.parse`.** The exchange is the `Reply` parameter and the payload parser is the `parse` parameter.
- **`console.error`, the scroll effect and the quick-question buttons of the chat widget.** They are output only.
- **The chat relay** (supabase/functions/faq-chat/index.ts). It is a network relay; its status mapping is not part of this model.
- **Other parts of the app.** These are the user-seeding function, authentication and role routing (App.tsx, AuthPage.tsx, Header.tsx), the upload modal (it stores nothing) and the purely presentational components.
- **The catalog data** (`mockResources`, `mockPYQs`, `subjectsByDepartment`). These are arguments.
- Text.Lower: lowercases ASCII letters only, not the full Unicode case mapping of `toLowerCase`.
- Text.IsWhitespace: lists the ECMAScript WhiteSpace and LineTerminator code points explicitly. Space separators added in later Unicode versions are not tracked.
- Numbers.IntToString: renders every integer in plain decimal. JavaScript switches to exponent notation from 1e21 on, which a millisecond clock does not reach.
- Numbers.ParseInt: returns an exact integer. JavaScript rounds results beyond 2^53 to the nearest double, which no year or semester option reaches.
- PyqFilter.SelectSemester: the page casts `parseInt(value)` to a semester without checking. The model returns `None` for a value outside 1 to 8, which the select never offers.
- SubmitForm.ToNewSubmission: the form's empty initial type, department and semester (`'' as ResourceType`) are outside the types. The model starts from a form whose required selectors are filled, as the browser's `required` check enforces before submit.
- Chatbot.SendMessage: the request's URL and headers are not modelled; `request` is the message history the body carries.
