# Email digest pipeline, modelled in Dafny

The Email-Summarizer scripts turn a mailbox into a daily HTML digest. The same
pipeline exists twice: `main.py` reads a Microsoft Graph mailbox and `gmail.py`
reads a Gmail mailbox. This project models what both scripts do deterministically
between fetching messages and writing HTML:

- **Thread aggregation.**
  - Graph: the fetched messages are grouped by conversation id. Each group is
    sorted by arrival time and becomes one thread. A thread has a transcript line
    per message, a reply target found by scanning from the newest message back
    through `replyTo`, `from` and `sender`, and the earliest message's subject and
    sender. The digest's own emails are skipped.
  - Gmail: only the messages at or after a cutoff are kept. A thread is skipped
    when every recent sender's `From` header starts with the owner's address. The
    reply target is the latest sender who is not the owner, else the latest
    sender. Subject and sender come from the thread's first message.
- **Reading the summariser's response.** The response is parsed strictly. Failing
  that, the span from the first `{` to the last `}` is re-parsed, and otherwise
  the data is empty. The reply drafts are then normalised: only the first three
  are considered, and a draft is dropped when its body is blank. Its label is
  stripped, spaces become hyphens, it is cut at the first `/`, lower-cased, and
  defaults to `reply`.
- **Reply links.** The link mode picks one of four compose-link shapes: Gmail,
  Outlook on the web, Outlook.com, or `mailto:`. The mode is matched
  case-insensitively and has a per-script default.
- **Render helpers.** The reply subject gets `Re: ` unless it already starts with
  `re:` in any case. The visible reply body has `<` and `>` escaped. A button's
  link is `#` when the thread has no reply target.

Modules:

- `Text`: the Python string operations used, such as `strip`, ASCII `lower`,
  `replace`, `split(..)[0]`, `find`/`rfind` and clamped slicing.
- `Sorting`: a stable sort by key, both as a function and as an in-place
  insertion sort on an array.
- `UrlEncoding`: `quote` / `quote_plus` over UTF-8, with their inverses.
- `ReplyLinks`: link shapes, rendering, and reading a link back.
- `Digest`: what the two scripts share, i.e. payload normalisation, digest
  entries, the reply subject and escaping.
- `GraphDigest`: `main.py`.
- `GmailDigest`: `gmail.py`.

Where a loop in the scripts updates state, the model has a method with that loop.
The method is proved equal to a specification function, and the properties are
proved about that function.

External calls are parameters:
- `email.utils.parseaddr(..)[1]` is an arbitrary function `string -> string`.
- `json.loads` is an arbitrary function `string -> Option<Payload>`.
- The summarisation service is an arbitrary function from a thread to its
  response text.

Every property holds for every choice of these functions. `quote` and
`quote_plus` are modelled concretely, as percent-encoding of UTF-8 bytes. That
makes the encoders' injectivity a proved lemma rather than an assumption.

Timestamps are integers. Graph's `receivedDateTime` strings are ISO-8601 UTC
strings of one fixed format, which order like the instants they name. Gmail's
`internalDate` is already a millisecond count, with a missing value read as 0.

Four behaviours of the code the model follows:
- `main.py` applies no owner exclusion to the reply target.
- `main.py` takes the subject from the earliest message after sorting.
- `main.py` skips only subjects starting with the daily digest's prefix
  (`DigestSubjectPrefix`). The digest it sends for a morning or afternoon run is
  titled with that period (main.py:687-699), so such a digest is not skipped and
  would itself be summarised.
- The Gmail transcript is in fetched order, not sorted order.

## Model

| member | source | states |
|---|---|---|
| Text.Strip | main.py:226 | `strip()` yields a string no longer than its input that neither starts nor ends with whitespace (Python's `isspace` set) |
| Text.StripKeepsMiddle | main.py:226 | what `strip()` keeps is one contiguous piece of the input, and everything dropped before and after it is whitespace |
| Text.StripOfStripped | main.py:253 | stripping a string that has no outer whitespace changes nothing |
| Text.Lower | main.py:146 | `lower()` keeps the length and lower-cases each ASCII letter in place |
| Text.LowerIsLowerCase | main.py:146 | the result of `lower()` contains no upper-case ASCII letter |
| Text.LowerIdempotent | main.py:280 | lower-casing twice is lower-casing once |
| Text.ReplaceAll | main.py:367 | `replace(c, rep)` removes every `c` when `rep` has none, introduces only characters of the input or of `rep`, keeps the length for a one-character `rep`, is the identity when `c` is absent, and for a one-character `rep` puts it exactly at the positions of `c`, keeping every other character in place |
| Text.BeforeFirst | main.py:367 | `split(sep)[0]` is a prefix of the input without `sep`, and the input continues with `sep` right after it when it is shorter |
| Text.Find | main.py:356 | `find(c)` is -1 exactly when `c` is absent, else the index of an occurrence with none before it |
| Text.RFind | main.py:357 | `rfind(c)` is -1 exactly when `c` is absent, else the index of an occurrence with none after it |
| Text.Slice | main.py:358 | `s[i:j]` with non-negative bounds is the sub-sequence when `i < j <= len(s)` and empty when `j <= i` |
| Sorting.Insert | main.py:207 | inserting one element into a sequence adds exactly one element |
| Sorting.SortByKey | main.py:207 | the key-sorted sequence has the input's length |
| Sorting.InsertSorted | main.py:207 | inserting into a key-sorted sequence keeps it sorted |
| Sorting.SortByKeySorted | main.py:207 | `sort(key=...)` yields a sequence in non-decreasing key order |
| Sorting.SortByKeyPermutes | main.py:207 | `sort(key=...)` yields a permutation of its input (same multiset) |
| Sorting.SortByKeyStable | main.py:207 | the sort is stable: the elements with any given key keep their input order |
| Sorting.SortedLater | gmail.py:104 | in a key-sorted sequence an element with a strictly larger key comes later |
| Sorting.SortByKeyIndex | gmail.py:104 | every input element has a position in the sorted output |
| Sorting.InsertPlace | main.py:207 | inserting at the gap after the last key not above the element's, before the larger ones, equals `Insert` |
| Sorting.ShiftGreater | main.py:207 | the inner insertion-sort loop shifts exactly the preceding elements with larger keys one place up and reports the gap; nothing else moves |
| Sorting.InsertAt | main.py:207 | one insertion pass turns the prefix through `i` into the sorted insertion of `a[i]` into the sorted prefix, leaving the rest of the array alone |
| Sorting.SortInPlace | main.py:207 | `msgs.sort(key=...)` in place leaves the array equal to the stable key-sort of its old contents |
| UrlEncoding.Encode | main.py:282 | `quote`/`quote_plus` output contains no `&`, `?`, `=` or `#`, so an encoded value cannot split a URL |
| UrlEncoding.QuoteEmitsNoPlus | main.py:295-296 | `quote` never writes a `+`: a space becomes `%20` |
| UrlEncoding.QuotePlusSpace | gmail.py:71 | `quote_plus` writes a space as `+` |
| UrlEncoding.Utf8RoundTrip | main.py:282 | decoding the UTF-8 bytes of a string gives the string back |
| UrlEncoding.PercentDecodeEncode | main.py:282 | percent-decoding the encoded string yields the string's UTF-8 bytes |
| UrlEncoding.DecodeEncode | main.py:282 | `unquote(quote(s)) == s` and `unquote_plus(quote_plus(s)) == s` |
| UrlEncoding.EncodeInjective | main.py:282 | two strings with the same encoding are equal |
| ReplyLinks.RoundTrip | main.py:279-296 | reading a rendered link of a well-formed shape back gives exactly the recipient, subject and body it was built from |
| ReplyLinks.SharedShapesWellFormed | gmail.py:54-70 | the Gmail and Outlook.com shapes have keys that separate the fields unambiguously |
| Digest.DataOf | main.py:358-360 | a response that could not be parsed yields the empty payload |
| Digest.DefaultLabelIsLabel | main.py:367 | the default label `reply` is a valid label |
| Digest.LabelStem | main.py:367 | the label before lower-casing is the stripped label with spaces turned into hyphens, cut just before its first `/`: a prefix of that text, free of `/`, followed by `/` or its end; it has no space |
| Digest.NormalizeLabel | main.py:367 | the normalised label is the lower-cased stem, or `reply` when the stem is empty; it is always non-empty, with no space, no `/` and no upper-case letter |
| Digest.NormalizeLabelExample | main.py:367 | a label `x y/z` over letters normalises to the lower-cased `x-y` (the `Let's Go/Maybe` to `let's-go` shape) |
| Digest.NormalizeLabelBlank | main.py:367 | a label that strips to nothing becomes `reply` |
| Digest.NormalizeLabelHead | main.py:367 | a normalised label never starts with whitespace |
| Digest.NormalizeLabelFixed | main.py:367 | a valid label with no whitespace at either end normalises to itself |
| Digest.NormalizeLabelShrinks | main.py:367 | a valid label ending in whitespace does not normalise to itself |
| Digest.NormalizeLabelIdempotentIff | main.py:367 | normalising a normalised label changes it exactly when it ends in whitespace |
| Digest.NormalizeLabelNotIdempotent | main.py:367 | for `x\t/`, normalising twice differs from normalising once (whitespace before the first `/` survives the first pass) |
| Digest.NormalizeDraft | main.py:367-370 | a draft yields an option exactly when its stripped body is non-blank; the option has a valid label and that stripped body |
| Digest.Capped | main.py:366 | `replies[:3]` is the prefix of the first three drafts, or all of them when there are fewer |
| Digest.NormalizedRepliesBound | main.py:364-371 | at most three normalised replies, each with a valid label and a non-blank stripped body |
| Digest.NormalizedRepliesSound | main.py:366-370 | every normalised reply is the normalisation of one of the first three drafts |
| Digest.NormalizedRepliesComplete | main.py:366-370 | each of the first three drafts with a non-blank body yields its normalised reply |
| Digest.NormalizedRepliesAll | main.py:366-370 | when all of the first three bodies are non-blank, no draft is dropped |
| Digest.NormalizeReplies | main.py:365-370 | the appending loop yields exactly the normalised replies |
| Digest.FilterMapSound | main.py:366-370 | every kept element is the image of some input element |
| Digest.FilterMapComplete | main.py:366-370 | every defined image is kept |
| Digest.MapSeq | main.py:213-226 | a per-element map keeps the length and maps each position |
| Digest.BraceSpan | main.py:356-358 | the salvage span is empty exactly when the last `}` precedes the first `{`, and otherwise runs from the first `{` through the last `}` |
| Digest.EntryForSpec | main.py:362-379 | an entry keeps the thread's sender, subject and reply target, has stripped summary and action and at most three valid replies, and is blank for the empty payload |
| Digest.BuildEntry | main.py:362-379 | building one entry yields the specified entry |
| Digest.DigestEntries | main.py:372-380 | one entry per thread, in thread order, each from that thread's own response |
| Digest.SubjectReply | main.py:402 | the reply subject starts with `re:` in any case; it is the subject itself exactly when that already holds, else `Re: ` + subject (the Gmail digest applies the same rule, gmail.py:250) |
| Digest.SubjectReplyIdempotent | main.py:604 | replying to a reply subject adds no second prefix |
| Digest.EscapeBody | main.py:479 | the escaped body contains no `<` and no `>` |
| Digest.EscapeBodyIsEscapeEach | main.py:622 | the two chained replacements equal escaping each character on its own |
| Digest.ReplyButtonsSpec | main.py:610-624 | one button per reply option with its label and escaped body; the link is `#` exactly when there is no reply target, else it reads back as (reply target, reply subject, body); gmail.py:256-268 renders the same buttons |
| GraphDigest.AddrOnly | main.py:141-146 | `_addr_only` is "" for a missing party, else the lower-cased address `parseaddr` finds in `"name <address>"`; it is always lower-case |
| GraphDigest.ConversationIdsDistinct | main.py:194-200 | no conversation id is listed twice |
| GraphDigest.ConversationIdsMember | main.py:196-200 | the conversation ids are exactly the non-empty ids the messages carry |
| GraphDigest.ConversationMembers | main.py:196-200 | a message is in the group of `cid` exactly when it was fetched and carries `cid` |
| GraphDigest.ConversationNonEmpty | main.py:200 | every group that is created holds a message |
| GraphDigest.GroupByConversation | main.py:194-200 | the grouping loop's keys are the conversation ids in first-seen order and each key maps to the messages of its conversation in fetched order |
| GraphDigest.Author | main.py:226 | a transcript line names the sender's lower-case address when `_addr_only` finds one, and `unknown` otherwise |
| GraphDigest.BuildTranscript | main.py:213-226 | the transcript loop yields one `<addr or unknown> said: <stripped preview>` line per message, in order |
| GraphDigest.FirstAddress | main.py:238-248 | the first non-empty candidate address is lower-case |
| GraphDigest.FirstAddressSpec | main.py:238-248 | the candidate scan yields "" exactly when no candidate has an address, else the address of the first candidate that has one |
| GraphDigest.ReplyTargetEmpty | main.py:235-250 | the reply target is "" exactly when no message offers an address |
| GraphDigest.ReplyTargetLatest | main.py:236-250 | a non-empty reply target is offered by some message, and no later message offers any address |
| GraphDigest.ReplyTargetLowerCase | main.py:245-247 | the reply target is lower-case |
| GraphDigest.FindReplyTarget | main.py:235-250 | the nested scan with its two `break`s yields the specified reply target |
| GraphDigest.ThreadSubject | main.py:253 | the thread subject is `No Subject` for a missing or empty subject, otherwise the stripped subject; either way it is stripped |
| GraphDigest.SenderDisplay | main.py:260-262 | the sender display is the stripped `"name <address>"` of the first message's `from`, with both parts "" when it is missing; it is stripped |
| GraphDigest.ThreadOfSpec | main.py:205-269 | a conversation yields a thread exactly when it has messages and its earliest subject is not a digest's; the thread's messages are sorted and a permutation of the group, the transcript has one line per message, the subject and sender come from a message no other precedes, and the reply target is lower-case |
| GraphDigest.ThreadFor | main.py:207-269 | sorting the group in place, building the lines and scanning for the reply target yields the specified thread |
| GraphDigest.FetchedThreadsSound | main.py:204-274 | every thread comes from one conversation, has a non-empty transcript and a lower-case reply target, and is not a digest email |
| GraphDigest.FetchedThreadsComplete | main.py:204-274 | every conversation that yields a thread has it in the result, and there are no more threads than conversations |
| GraphDigest.FetchThreads | main.py:194-274 | the grouping and per-conversation loops yield the specified threads |
| GraphDigest.LinkShapeForWellFormed | main.py:279-296 | every link shape the mode can select separates its fields unambiguously |
| GraphDigest.BuildReplyLinkRoundTrip | main.py:279-296 | whatever the mode, the link reads back as exactly the recipient, subject and body |
| GraphDigest.LinkShapeForIgnoresCase | main.py:280 | the mode is matched case-insensitively |
| GraphDigest.DefaultModeIsOffice | main.py:47 | with the variable unset the links open Outlook on the web |
| GraphDigest.EmptyModeIsMailto | main.py:280 | with the variable set but empty the links are `mailto:` links |
| GraphDigest.MailtoLinkHasNoPlus | main.py:295-296 | a `mailto:` link contains no `+` |
| GraphDigest.ParseResponseSpec | main.py:351-360 | a parsable response is used as is; otherwise it is salvaged exactly when it holds both braces and the brace span parses |
| GraphDigest.ParseResponseReversedBraces | main.py:358 | when the last `}` precedes the first `{`, the empty string is re-parsed |
| GraphDigest.SummarizeAndAction | main.py:300-380 | one entry per thread, in order, each built from the parsed, salvaged or empty data of that thread's response |
| GmailDigest.HeaderValueSpec | gmail.py:95 | a header lookup yields the fallback when no header has the name, else the value of the first header with that name |
| GmailDigest.Recent | gmail.py:87 | the recent messages are no more than the thread's |
| GmailDigest.RecentMembers | gmail.py:87 | a message is recent exactly when it is in the thread and not older than the cutoff |
| GmailDigest.RecentMessages | gmail.py:87 | the filtering loop yields the specified recent messages |
| GmailDigest.QuotedNameIsNotOwner | gmail.py:100 | when the owner address is set (and does not itself open with `"`), a `From` header that opens with a quoted display name never counts as the owner's |
| GmailDigest.SelfOnlyWithoutOwner | gmail.py:100 | with no owner address every sender passes the self-only test |
| GmailDigest.SendersSelfOnly | gmail.py:91-100 | the test over the set of `From` headers is the test over the recent messages |
| GmailDigest.CollectSenders | gmail.py:91-98 | the loop yields the set of the recent `From` headers and one `<From> said: <snippet>` line per recent message, in fetched order |
| GmailDigest.LastOtherUpToEmpty | gmail.py:106-112 | the reverse scan finds nothing exactly when no message's address is non-empty and not the owner's |
| GmailDigest.LastOtherUpToLatest | gmail.py:106-112 | a found address belongs to a message from someone other than the owner, with no such message after it |
| GmailDigest.ReplyTargetOther | gmail.py:103-113 | when some recent message is from someone other than the owner, the reply target is such a message's address and no later-received message is from someone else |
| GmailDigest.ReplyTargetFallback | gmail.py:113 | when every recent message is from the owner, the reply target is the address of a latest-received message |
| GmailDigest.FindReplyTarget | gmail.py:104-113 | the sorted reverse scan with its `break`, then the fallback, yields the specified reply target |
| GmailDigest.ThreadOfSpec | gmail.py:83-124 | a thread yields a summary exactly when some message is recent and not every recent sender is the owner; then the owner is set, the transcript has one `<From> said: <snippet>` line per recent message in fetched order, and subject and sender are the first message's headers with their fallbacks |
| GmailDigest.BlankOwnerSkipsEveryThread | gmail.py:100 | with no owner address no thread is summarised |
| GmailDigest.ThreadFor | gmail.py:84-124 | the loop body for one thread yields the specified summary |
| GmailDigest.FetchedThreadsSound | gmail.py:83-126 | every summary comes from one fetched thread and has transcript lines, and there are no more summaries than threads |
| GmailDigest.FetchedThreadsComplete | gmail.py:83-126 | every thread that yields a summary has it in the result |
| GmailDigest.BlankOwnerFetchesNothing | gmail.py:100 | with no owner address the digest has no threads |
| GmailDigest.FetchThreads | gmail.py:83-126 | the per-thread loop yields the specified summaries |
| GmailDigest.LinkShapeForWellFormed | gmail.py:52-71 | every link shape the mode can select separates its fields unambiguously |
| GmailDigest.BuildReplyLinkRoundTrip | gmail.py:52-71 | whatever the mode, the link reads back as exactly the recipient, subject and body |
| GmailDigest.LinkShapeForIgnoresCase | gmail.py:53 | the mode is matched case-insensitively |
| GmailDigest.DefaultModeIsGmail | gmail.py:25 | unset or empty, the mode opens Gmail's compose window |
| GmailDigest.MailtoSpaceIsPlus | gmail.py:71 | the `mailto:` link writes a space in the body as `+` |
| GmailDigest.ParseResponseSpec | gmail.py:180-190 | a parsable response is used as is; otherwise it is salvaged exactly when a `{` comes before a later `}` and the span parses, and that span is never empty |
| GmailDigest.ParseResponseReversedBraces | gmail.py:187 | when the last `}` precedes the first `{`, nothing is re-parsed |
| GmailDigest.GenerateDigestItems | gmail.py:129-219 | one entry per thread, in order, each built from the parsed, salvaged or empty data of that thread's response |

## Left out

- Authentication, token caching, environment and profile loading, and all of
  `main_render.py` and `prepare_render_token.py`: credential flows and file I/O.
- Network calls are left out: Graph paging, the Gmail API, the summarisation
  request, and sending mail by Graph or SMTP. The model takes the fetched
  messages as input, and the response text comes from a function parameter.
- The time window (`datetime.now()`, `timedelta`, `timestamp() * 1000`): the cutoff
  is an integer parameter, and Graph's server-side date filter is not modelled.
- The HTML templates, CSS and `print` logging. Also the `participants` set in
  `main.py`, which only feeds a log line, and `TEST_MODE`.
- `email.utils.parseaddr` and `json.loads` are function parameters, not
  implementations. `json.loads` results that are not objects, null fields and
  non-string values are not modelled: a missing, null or empty field is "" or [].
- Text.Lower: lower-cases ASCII letters only, where Python's `lower()` also
  lower-cases other scripts.
- Null and missing fields of Graph messages: a `from` whose `name` is null gives
  `"None <address>"` to `parseaddr` in the code, where the model uses "". A null
  `address` likewise gives `"<name> <None>"`, so `_addr_only` returns `"none"`,
  a non-empty address that can become the reply target; the model has "" there. A message
  without `receivedDateTime` sorts first in the code (key ""), and a null one raises;
  the model gives every message an integer time.
- The transcript is kept as a sequence of lines rather than joined with newlines.
- Graph `receivedDateTime` strings are modelled as integers that order like them.
- `quote`/`quote_plus` are modelled for text whose characters are Unicode
  scalar values. Surrogate code points, which Python refuses to encode, are not
  modelled.
