# PDF renamer: a Dafny model

This project models the core of a small tool that renames PDF files. For
each PDF in a directory it reads the text of the first pages. It asks a
language model for the author, title and publication date. The reply goes
once through a fixed chain of five repairs and is then parsed once by
`json.loads`; there is no retry. It then builds a sanitized file
name that does not collide with existing files, and writes a copy with new
document metadata under that name through a temporary file. Finally it
removes the original. The model follows `pdf_renamer.py` and
`llm_provider.py`.

Modules, one per concern of the source:

- `Wrappers` holds `Option` and `Result`.
- `Text` holds Python's string built-ins as the core uses them:
  - `str.strip()` over Python's whitespace set, and `str.lower()` for ASCII;
  - the first and last occurrence of a character (`Find`, `RFind`), which
    stand in for the greedy `\{.*\}` search of pass 3, for
    `os.path.splitext` and for `Path.suffix`;
  - `sep.join(...)`;
  - `str(n)` for a natural number, with its decimal round trip.
- `FilenamePolicy` models `sanitize_filename` as three pure passes, and
  `make_destination_path` as a `while` loop against the set of names in the
  directory. `os.path.splitext` is modelled for POSIX.
- `ResponseParser` has one function per `re.search`/`re.sub` pass of
  `extract_metadata`, in the source's order, plus the validation of the
  parsed dictionary.
  - The regular expressions are modelled by what they match. Pass 1 is lazy:
    the first '}' that a closing fence can follow. Pass 3 is greedy: from
    the first '{' to the last '}'. The tail of pass 1 is a greedy `\s*`. A
    "json" tag matches case-sensitively in pass 1 and in any case in pass 2.
- `LlmProvider` holds the provider record, `extract_metadata` and the
  factory `get_llm_provider`, including its two tables and the error it
  raises.
- `PdfDocs` models what the PDF library yields for a file, plus the page
  loop of `extract_first_n_pages_text` as a `for` loop proved equal to a
  specification function. It also holds the metadata dictionary that
  `update_and_save_pdf_metadata` writes.
- `Listing` covers the suffix test for PDFs and the stable, newest-first
  sort by modification time.
- `Renamer` has a `Directory` class whose `entries` map the filesystem
  updates in place.
  - Its methods are the metadata write, the per-file job and the batch
    driver.
  - Each method's postcondition states the new directory and the number of
    write calls made in terms of the old ones, up to the modification times
    the jobs stamp. Those times are left open, and with them the order of
    the second pass's queue.
  - A job is one `JobStep` from the directory before it to the directory
    after it. A pass is a `Pass`: one `JobStep` per queued file, in queue
    order, each starting where the previous one ended.

Outside effects are parameters:

- The completion call, the `'choices'` indexing included, is an oracle
  `Completion`.
- `json.loads` is an oracle `JsonLoads` that returns the parsed value or
  `None` when it raises.
- The environment is a `map<string, string>`.
- The PDF library is represented by a `Document` value per file: unreadable,
  or a list of pages. Each page yields text, no text, or an exception.
- How each write call fares (success, or a failing `open`, `write` or
  `replace`) comes from `Directory.faultAt`, one value per call.
- Modification times come from `Directory.clock`.
- The order of `iterdir()` is left open: `ListNames` returns each name
  exactly once, in any order.

Where the code and its descriptions differ, the model follows the code:

- `sanitize_filename` is not idempotent when truncation leaves a trailing
  space (`SanitizeIdempotentIff`, `SanitizeCutLeavesSpace`,
  `SanitizeAgainStripsSpace`).
- A destination does not end in ".pdf" in every case. An empty proposal
  that collides yields ".pdf_1" (`EmptyNameExample`). The pipeline never
  proposes such a name (`DestinationIsPdf`).
- A missing "author" or "pubdate" key raises `KeyError` while the file name
  is built (pdf_renamer.py:151). A missing "title" cannot get that far,
  because validation already rejects it (llm_provider.py:73-74). Nothing
  catches the `KeyError`, so it ends the whole batch rather than only
  skipping the file (`ProcessSinglePdf`, `RunPass`).
- `process_pdf_directory` and `process_single_pdf` each contain a second,
  duplicated body after their docstring-like strings.
  - In `process_single_pdf` every path returns before reaching it, so it is
    dead code.
  - In `process_pdf_directory` it runs: the directory is listed again and
    every job runs a second time with the default of five pages
    (`ProcessPdfDirectory`).
- After the rename, the source rewrites the destination from itself. The
  contents stay the same (`RewrittenStable`), but the file gets a new
  modification time, and a failed second write can leave a complete or
  empty `.tmp` file next to it.
- A page of only whitespace counts as text and strips to "". Two such pages
  give "\n\n", which passes the job's emptiness test
  (`BlankPagesGiveSeparator`).

## Model

| member | source | states |
|---|---|---|
| Text.StripResult | pdf_renamer.py:49 | `str.strip()` returns a slice of its input with no whitespace at either end, and what it removes on either side is all whitespace |
| Text.StripPadded | pdf_renamer.py:84 | whitespace wrapped around a stripped string is exactly what `str.strip()` removes |
| Text.StripLeftNonEmpty | pdf_renamer.py:84 | a non-whitespace character survives the left half of `strip()`, which then begins with a non-whitespace character |
| Text.StripRightNonEmpty | pdf_renamer.py:84 | a string that begins with a non-whitespace character does not become empty under the right half of `strip()` |
| Text.StripLeft | pdf_renamer.py:49 | the leading half of `str.strip()`, never longer than its input; `StripLeftSpec` states its meaning |
| Text.StripLeftSpec | pdf_renamer.py:49 | the left strip removes only whitespace, and leaves the rest of the string, which is empty or starts with a non-space |
| Text.StripRight | pdf_renamer.py:49 | the trailing half of `str.strip()`, never longer than its input; `StripRightSpec` states its meaning |
| Text.StripRightSpec | pdf_renamer.py:49 | the right strip removes only whitespace, and leaves the start of the string, which is empty or ends with a non-space |
| Text.Strip | pdf_renamer.py:49 | `str.strip()` with no argument, also used at pdf_renamer.py:84 and llm_provider.py:61-62; `StripResult` and `StripPadded` state its meaning |
| Text.Join | pdf_renamer.py:50 | `sep.join(parts)`: the parts in order with the separator between neighbours; `JoinEmpty` and `TwoPagesJoined` state its uses |
| Text.JoinEmpty | pdf_renamer.py:50 | with a non-empty separator the join is empty exactly for no parts or a single empty part |
| Text.Find | llm_provider.py:63 | the index of the first occurrence of a character, with no occurrence before it, or -1 exactly when there is none |
| Text.RFind | llm_provider.py:63 | the index of the last occurrence of a character, with no occurrence after it, or -1 exactly when there is none |
| Text.NatToString | pdf_renamer.py:102 | `str(counter)` is a non-empty string of decimal digits |
| Text.DecimalRoundTrip | pdf_renamer.py:102 | reading the digits of `str(n)` back gives `n` |
| Text.DecimalInjective | pdf_renamer.py:102 | different counters have different decimal strings |
| Text.NatToStringNoLeadingZero | pdf_renamer.py:102 | `str(counter)` begins with '0' exactly when the counter is 0 |
| FilenamePolicy.DropDisallowed | pdf_renamer.py:83 | the first substitution leaves only characters of `[\w\s\(\)\-\&]`, never lengthens, and leaves a string of such characters unchanged |
| FilenamePolicy.DropDisallowedAppend | pdf_renamer.py:83 | the first substitution works character by character: on a concatenation it is the concatenation of its results on the parts |
| FilenamePolicy.DropDisallowedChar | pdf_renamer.py:83 | a single character is kept exactly when it is allowed, and deleted otherwise |
| FilenamePolicy.CollapseSpaces | pdf_renamer.py:84 | after `\s+` becomes " ", every whitespace character is a single plain space, the first character is kept (or becomes a space), and allowed characters stay allowed |
| FilenamePolicy.SliceTo | pdf_renamer.py:85 | `s[:limit]` is a prefix of `s` whose length is `limit` capped at `len(s)`, and for a negative limit `len(s) + limit` floored at 0 |
| FilenamePolicy.SanitizeFilename | pdf_renamer.py:76-85 | the result is at most `limit` long, holds only allowed characters with single plain spaces and no leading space, and is a prefix of the untruncated clean name |
| FilenamePolicy.UntruncatedClean | pdf_renamer.py:83-84 | before truncation the name is clean and has no whitespace at either end |
| FilenamePolicy.CollapseSpacedIdentity | pdf_renamer.py:84 | collapsing whitespace changes nothing in a string that already has only single plain spaces |
| FilenamePolicy.TrailingSpaceOnlyWhenCut | pdf_renamer.py:84-85 | a sanitized name ends in a space only when truncation shortened it |
| FilenamePolicy.SanitizeIdempotentIff | pdf_renamer.py:76-85 | sanitizing a sanitized name again gives the same name exactly when it does not end in a space |
| FilenamePolicy.SanitizeCutLeavesSpace | pdf_renamer.py:84-85 | "ab c" with limit 3 sanitizes to "ab " |
| FilenamePolicy.SanitizeAgainStripsSpace | pdf_renamer.py:84-85 | "ab " with limit 3 sanitizes to "ab", so sanitizing twice differs from sanitizing once |
| FilenamePolicy.SanitizeKeepsVisible | pdf_renamer.py:83-85 | an allowed non-whitespace character in the input keeps a sanitized name with a positive limit non-empty |
| FilenamePolicy.StripKeeps | pdf_renamer.py:84 | a string with a non-whitespace character does not strip to "" |
| FilenamePolicy.SanitizedHasNoDot | pdf_renamer.py:83 | a sanitized name contains no '.' and no '/' |
| FilenamePolicy.SplitExt | pdf_renamer.py:101 | `splitext` splits the name into stem and extension that concatenate back to it; the extension is empty or a dot followed by no '.' and no '/' |
| FilenamePolicy.LeadingDotOnly | pdf_renamer.py:101 | a name whose only dot is its first character has an empty extension |
| FilenamePolicy.BaseName | pdf_renamer.py:95-97 | the proposal with ".pdf" appended unless it already ends so; `BaseNameSpec` states its meaning |
| FilenamePolicy.Candidate | pdf_renamer.py:101-102 | the k-th name the loop tries; `CandidateInjective` and `CandidatesOfCleanName` state its meaning |
| FilenamePolicy.Tried | pdf_renamer.py:99-103 | the names tried before the n-th include every earlier candidate; `TriedExcludesNext` and `TriedGrows` state the rest |
| FilenamePolicy.BaseNameSpec | pdf_renamer.py:95-97 | the base name ends in ".pdf" in any case; it is the proposal itself when that already ends so, or else the proposal plus ".pdf" |
| FilenamePolicy.CandidateInjective | pdf_renamer.py:101-102 | different counters give different candidate names |
| FilenamePolicy.TriedExcludesNext | pdf_renamer.py:99-103 | the first n names tried are n distinct names, and the next candidate is none of them |
| FilenamePolicy.TriedGrows | pdf_renamer.py:100-103 | each taken candidate shrinks the set of existing names not yet tried |
| FilenamePolicy.TriedBound | pdf_renamer.py:100-103 | the loop tries at most as many taken names as exist |
| FilenamePolicy.FirstFreeUnique | pdf_renamer.py:88-104 | the first free candidate against a given set of names is unique |
| FilenamePolicy.MakeDestinationPath | pdf_renamer.py:88-104 | the result is not taken, is the k-th candidate, every earlier candidate is taken, and k is at most the number of existing names |
| FilenamePolicy.CandidatesOfCleanName | pdf_renamer.py:95-102 | for a non-empty proposal without '.' or '/', ".pdf" is appended and the candidates are `p.pdf`, `p_1.pdf`, `p_2.pdf`, … |
| FilenamePolicy.CleanDestinationEndsInPdf | pdf_renamer.py:95-102 | every candidate for such a proposal ends in ".pdf" and contains no '/' |
| FilenamePolicy.FooCandidate | pdf_renamer.py:95-102 | the first three candidates for "foo" are "foo.pdf", "foo_1.pdf" and "foo_2.pdf" |
| FilenamePolicy.BareCandidates | pdf_renamer.py:95-102 | for the empty proposal the candidates start ".pdf", ".pdf_1" |
| FilenamePolicy.FirstCollisionExample | pdf_renamer.py:88-104 | with "foo.pdf" taken, "foo" gets "foo_1.pdf" |
| FilenamePolicy.SecondCollisionExample | pdf_renamer.py:88-104 | with "foo.pdf" and "foo_1.pdf" taken, "foo" gets "foo_2.pdf" |
| FilenamePolicy.NoCollisionExample | pdf_renamer.py:88-104 | with only "bar.pdf" present, "foo" gets "foo.pdf" |
| FilenamePolicy.EmptyNameExample | pdf_renamer.py:88-104 | with ".pdf" taken, the empty proposal gets ".pdf_1", a name without the ".pdf" ending |
| ResponseParser.SkipSpace | llm_provider.py:59 | a greedy `\s*` stops at or after where it starts, within the text |
| ResponseParser.SkipSpaceSpan | llm_provider.py:59 | a greedy `\s*` consumes only whitespace and stops at a non-space or the end |
| ResponseParser.SkipSpaceOver | llm_provider.py:59 | a whitespace run followed by a non-space is exactly what `\s*` consumes |
| ResponseParser.SkipSpaceStops | llm_provider.py:59 | `\s*` never runs past a non-space |
| ResponseParser.SkipSpacePasses | llm_provider.py:59 | `\s*` consumes at least a whole whitespace run |
| ResponseParser.SkipSpaceEmbedded | llm_provider.py:59 | inside a copy of `obj` placed in a longer text, `\s*` stops where it stops in `obj`, when `obj` ends in a non-space |
| ResponseParser.FenceEmbedded | llm_provider.py:59 | inside a copy of an object placed in a longer text, "```" starts exactly where it starts in the object |
| ResponseParser.ClosesEmbedded | llm_provider.py:59 | inside such a copy, a position can be followed by whitespace and the closing "```" exactly when it can in the object |
| ResponseParser.ProseDoesNotMatch | llm_provider.py:59 | no match of pass 1 starts inside prose free of "```" that the opening fence follows |
| ResponseParser.ProseHasNoMatch | llm_provider.py:59 | the same for every position of that prose |
| ResponseParser.ObjectClosesOnce | llm_provider.py:59 | when no '}' inside the object can be followed by whitespace and "```", neither can that '}' in the longer text |
| ResponseParser.CloseBraceFirst | llm_provider.py:59 | the lazy group ends at the first '}' that the closing fence can follow |
| ResponseParser.CloseBraceSpan | llm_provider.py:59 | a found group end is a '}' that the closing `\s*```` can follow |
| ResponseParser.MatchAtSpan | llm_provider.py:59 | a match at position i has its group from a '{' after the opening fence to a later '}' |
| ResponseParser.FenceFromSpan | llm_provider.py:59 | the leftmost match from i has its group from a '{' to a later '}' after i + 3 |
| ResponseParser.ExtractFenced | llm_provider.py:59-60 | pass 1 never lengthens the text, and when it changes it, the result runs from '{' to '}' |
| ResponseParser.FenceFromSkipsProse | llm_provider.py:59 | the leftmost search passes over positions where no match starts |
| ResponseParser.OpenBraceAt | llm_provider.py:59 | the opening "```", optional "json" and whitespace put the group's '{' at the given position |
| ResponseParser.MatchAt | llm_provider.py:59 | a match of pass 1's pattern starting at one position, as the group's span; `MatchAtSpan` and `FenceMatch` state its meaning |
| ResponseParser.FenceFrom | llm_provider.py:59 | the leftmost match at or after a position, as `re.search` finds it; `FenceFromSpan` and `FenceFromSkipsProse` state its meaning |
| ResponseParser.FenceMatch | llm_provider.py:59-60 | the whole fenced pattern, located by offsets, yields exactly the object |
| ResponseParser.FencedObjectExtracted | llm_provider.py:59-60 | prose, "```" or "```json", whitespace, an object, whitespace, "```" and more prose: pass 1 keeps exactly the object when the prose before it holds no "```" and no '}' inside the object can be followed by whitespace and "```" |
| ResponseParser.InlineCodeBeforeBlock | llm_provider.py:59-60 | inline code in the prose before the block does not stop pass 1 from keeping the object: "`a` ```{}```" gives "{}" |
| ResponseParser.StripFences | llm_provider.py:61-62 | after pass 2 the text has no whitespace at either end |
| ResponseParser.StripFencesUnfenced | llm_provider.py:61-62 | text with no fence marker at either end only loses its surrounding whitespace |
| ResponseParser.StripFencesFenced | llm_provider.py:61-62 | a reply wholly fenced as "```json … ```" comes out as its stripped body |
| ResponseParser.StripAroundFence | llm_provider.py:61 | whitespace around a fenced reply is stripped away |
| ResponseParser.StripBeforeFence | llm_provider.py:61-62 | stripping text that ends in a fence only strips its front, and stripping it again changes nothing |
| ResponseParser.StripLeftAppend | llm_provider.py:61 | the left strip of `a + b`, when `b` begins with a non-space, is the left strip of `a` followed by `b` |
| ResponseParser.DropLeadingJsonFence | llm_provider.py:61 | "```json" at the start is removed |
| ResponseParser.DropLeadingFence | llm_provider.py:61 | `^```(?:json)?` removed under `re.IGNORECASE`; `DropLeadingJsonFence` and `DropLeadingLongSTag` state its meaning |
| ResponseParser.DropLeadingLongSTag | llm_provider.py:61 | under `re.IGNORECASE` the tag "JſON" is removed like "json", since 'ſ' folds to 's' |
| ResponseParser.DropTrailingFenceOf | llm_provider.py:62 | "```" at the end is removed |
| ResponseParser.DropTrailingFence | llm_provider.py:62 | a trailing "```" removed; `DropTrailingFenceOf` states its meaning |
| ResponseParser.GreedyBraceSpan | llm_provider.py:63-65 | when a '{' precedes a '}', pass 3 keeps a span from '{' to '}' with no '{' before it and no '}' after it; otherwise the text is unchanged |
| ResponseParser.SpanParts | llm_provider.py:63-65 | a span from a '{' to a '}' with no '{' before and no '}' after splits the text into prefix, span and suffix |
| ResponseParser.GreedyBraceCut | llm_provider.py:63-65 | any '{' before a '}' puts the first '{' before the last '}' |
| ResponseParser.GreedyBraceValue | llm_provider.py:63-65 | when the first '{' precedes the last '}', pass 3 yields the span between them, inclusive |
| ResponseParser.GreedyBraceNone | llm_provider.py:63-65 | without a '{' before a '}', pass 3 leaves the text unchanged |
| ResponseParser.GreedyBraceIdempotent | llm_provider.py:63-65 | applying pass 3 twice equals applying it once |
| ResponseParser.GreedyBrace | llm_provider.py:63-65 | pass 3; `GreedyBraceSpan`, `GreedyBraceValue` and `GreedyBraceNone` state its meaning |
| ResponseParser.SwapQuotes | llm_provider.py:66-67 | the length is kept; text with a '"' is unchanged; otherwise every "'" becomes '"', so no "'" is left; every character other than "'" is kept |
| ResponseParser.SwapQuotesIdempotent | llm_provider.py:66-67 | a second quote swap changes nothing |
| ResponseParser.DropTrailingCommas | llm_provider.py:68 | pass 5 never lengthens the text |
| ResponseParser.DropTrailingCommasShrinks | llm_provider.py:68 | a comma before a closing bracket makes the text strictly shorter |
| ResponseParser.DropTrailingCommasKeeps | llm_provider.py:68 | text without that pattern is unchanged |
| ResponseParser.DropTrailingCommasChanges | llm_provider.py:68 | pass 5 changes the text exactly when a comma is followed (after whitespace) by '}' or ']' |
| ResponseParser.DropTrailingCommasVisible | llm_provider.py:68 | pass 5 deletes only commas and whitespace: every other character survives, in order |
| ResponseParser.DropTrailingCommasNotIdempotent | llm_provider.py:68 | ",,}" becomes ",}", which a second pass would turn into "}" |
| ResponseParser.FencedJsonNormalizes | llm_provider.py:59-68 | a strict JSON object with a '"' and no trailing comma, in a "```json" block amid prose, reaches `json.loads` unchanged, when the prose before the block holds no "```" and no '}' inside the object can be followed by whitespace and "```" |
| ResponseParser.Normalize | llm_provider.py:59-68 | the five passes in the source's order; `FencedJsonNormalizes` and `LlmProvider.ExtractMetadata` state what they achieve |
| ResponseParser.BracedUnfenced | llm_provider.py:61-62 | text from '{' to '}' passes pass 2 unchanged |
| ResponseParser.BracedWhole | llm_provider.py:63-65 | text from '{' to '}' is its own greedy span |
| ResponseParser.EmptyIsNoPlaceholder | llm_provider.py:71 | a missing author, read as "", is not a placeholder |
| ResponseParser.ValidateAccepts | llm_provider.py:69-76 | validation returns the parsed dictionary unchanged exactly when it is a dictionary whose author is absent or a non-placeholder string, and whose title is a string that is neither "unknown" nor blank; it rejects everything else, parse failures and non-dictionaries included |
| ResponseParser.Validate | llm_provider.py:69-76 | the validation of the parsed value; `ValidateAccepts` states its meaning |
| ResponseParser.ValidateIgnoresPubdate | llm_provider.py:70-74 | the "pubdate" entry never affects acceptance |
| ResponseParser.UnknownAuthorRejected | llm_provider.py:71 | an author "unknown" is rejected whatever the title |
| LlmProvider.ExtractMetadata | llm_provider.py:47-79 | a result exists only when the completion succeeded; it is exactly the dictionary `json.loads` made of the repaired reply, and both tests accept it |
| LlmProvider.ExtractMetadataAccepts | llm_provider.py:47-76 | conversely, a reply whose repaired text parses to an acceptable dictionary yields that dictionary |
| LlmProvider.ExtractMetadataFailures | llm_provider.py:57-79 | a failed call, a failed parse or a non-dictionary gives None |
| LlmProvider.FencedReplyParsed | llm_provider.py:57-76 | for prose around a "```json" block with a strict JSON object, under the same two conditions on the prose and the object, the result is the validation of what the parser makes of exactly that object |
| LlmProvider.SelectedModel | llm_provider.py:129 | the selected model is non-empty, and is the given model when that is non-empty |
| LlmProvider.ProviderOf | llm_provider.py:130 | the provider is the mapped one, or "anthropic" for an unmapped model, and always has an environment variable |
| LlmProvider.GetLlmProvider | llm_provider.py:125-135 | the factory succeeds exactly when the provider's variable is set and non-empty; then it holds the selected model and that key; otherwise the error names the provider and the variable |
| LlmProvider.FactoryDefault | llm_provider.py:125-131 | no model, or the empty name, selects Claude 3 Haiku with ANTHROPIC_API_KEY |
| LlmProvider.FactoryUnmapped | llm_provider.py:129-130 | an unknown model is kept as given and keyed by ANTHROPIC_API_KEY |
| LlmProvider.FactoryReadsOneVariable | llm_provider.py:131-133 | no environment variable other than the provider's affects the result |
| LlmProvider.FactoryWrongKey | llm_provider.py:101-135 | with only ANTHROPIC_API_KEY set, "gpt-4" fails naming openai/OPENAI_API_KEY and the default model succeeds |
| PdfDocs.PagesRead | pdf_renamer.py:44 | the number of pages read is `min(len(pages), n)`, and 0 for a negative n |
| PdfDocs.Kept | pdf_renamer.py:46-50 | the stripped texts of the pages with text, or a failure once a page raises; `KeptSpec` and `KeptFault` state its meaning |
| PdfDocs.PagesText | pdf_renamer.py:40-53 | the specification of the extraction; `ExtractFirstNPagesText` is proved equal to it and `PagesTextNone` states when it fails |
| PdfDocs.ExtractFirstNPagesText | pdf_renamer.py:33-53 | the page loop computes the specified extraction: None for an unreadable file, no pages, a raising page or no text; otherwise the stripped texts joined by a blank line |
| PdfDocs.KeptFault | pdf_renamer.py:46-53 | once a page raises, the extraction fails whatever the later pages are |
| PdfDocs.KeptSpec | pdf_renamer.py:46-50 | the kept texts exist exactly when no page raises, number at most one per page, are each stripped, and are empty exactly when no page has text |
| PdfDocs.PagesTextNone | pdf_renamer.py:40-53 | extraction fails exactly when the file is unreadable, has no pages, or among the pages read some page raises or none has text |
| PdfDocs.PagesTextIgnoresLater | pdf_renamer.py:44-47 | pages after the first n make no difference |
| PdfDocs.TwoPagesJoined | pdf_renamer.py:46-50 | two pages with stripped text around a textless page give the two texts separated by one blank line |
| PdfDocs.BlankPagesGiveSeparator | pdf_renamer.py:48-50 | two pages of only whitespace give "\n\n" |
| PdfDocs.CreationDate | pdf_renamer.py:123 | the date string is 13 characters longer than the year |
| PdfDocs.CreationDateYear | pdf_renamer.py:123 | the date string starts with "D:", ends with "0101000000Z" and holds the year between them |
| PdfDocs.MetadataFields | pdf_renamer.py:120-124 | the written metadata has exactly the keys /Author, /Title and /CreationDate, with their values |
| PdfDocs.Metadata | pdf_renamer.py:120-124 | the dictionary passed to `add_metadata`; `MetadataFields` states its contents |
| PdfDocs.Rewritten | pdf_renamer.py:115-125 | a copy exists exactly when the source is readable, and has the source's pages and the three metadata keys |
| PdfDocs.RewrittenStable | pdf_renamer.py:158 | rewriting the written copy with the same metadata gives the same contents |
| Listing.Suffix | pdf_renamer.py:197 | `Path.suffix` is empty, or a proper, dot-led ending of the name |
| Listing.IsPdfNameIff | pdf_renamer.py:197 | a name passes the suffix test exactly when it ends in ".pdf" in any case with something before it |
| Listing.IsPdfName | pdf_renamer.py:197 | the test `f.suffix.lower() == ".pdf"`; `IsPdfNameIff` states its meaning |
| Listing.EndsPdfIsPdfName | pdf_renamer.py:197 | a name of 5 characters or more ending in ".pdf" in any case passes the suffix test |
| Listing.PdfNameEndsPdf | pdf_renamer.py:197 | a name passing the suffix test ends in ".pdf" in any case |
| Listing.TempNotPdf | pdf_renamer.py:197 | a temporary `….tmp` file never passes the suffix test |
| Listing.Insert | pdf_renamer.py:197 | inserting adds exactly the one entry |
| Listing.SortByMtime | pdf_renamer.py:197 | the sort is a permutation of the listing |
| Listing.InsertSorted | pdf_renamer.py:197 | inserting into a newest-first list keeps it newest first |
| Listing.SortSorted | pdf_renamer.py:197 | the sorted listing is newest first |
| Listing.InsertTies | pdf_renamer.py:197 | inserting places the entry ahead of the entries it ties with |
| Listing.SortStable | pdf_renamer.py:197 | entries with equal modification times keep their listing order |
| Renamer.TempName | pdf_renamer.py:126 | the temporary name differs from the destination |
| Renamer.AfterWrite | pdf_renamer.py:114-133 | the write succeeds exactly when this call's fault is success and the source is readable; then the destination holds the source's pages with the new metadata and no temporary file remains; on failure the destination is untouched; no other name is affected |
| Renamer.Guess | pdf_renamer.py:143-150 | the accepted dictionary for a file, or None when the job skips it; `ProcessSinglePdf` ties each job to it |
| Renamer.NameFor | pdf_renamer.py:151-152 | the sanitized `"{author} - {title} ({pubdate})"`; `NameForClean` and `DestinationIsPdf` state its meaning |
| Renamer.JobStep | pdf_renamer.py:136-163 | one job's effect on the directory, the write count and the result, as the `ProcessSinglePdf` row states it |
| Renamer.Ran | pdf_renamer.py:197-199 | one `JobStep` per step, in queue order, each from the state the previous step left |
| Renamer.Pass | pdf_renamer.py:197-199 | a run that stops at the first abort and ends in the given state, as the `RunPass` row states it |
| Renamer.Directory.UpdateAndSavePdfMetadata | pdf_renamer.py:107-133 | the new directory and result are those of the write step for this call's fault, stamped with the current clock |
| Renamer.Directory.ProcessSinglePdf | pdf_renamer.py:136-163 | the job is one `JobStep` for the guess made from the file's first pages: without a guess it returns the input and changes nothing; a missing key aborts, unchanged, exactly when the guess lacks it; otherwise the destination is the first free name for the sanitized guess, the file is renamed exactly when the job's first write call succeeds, which costs two write calls (one when it fails), and a rename leaves the renamed contents under the destination, removes the original (unless its own name is that of the temporary file) and changes nothing else but the temporary file; a failed write keeps the original and changes at most the temporary file |
| Renamer.Directory.RenameByGuess | pdf_renamer.py:151-163 | the same `JobStep` for a guess that has all three keys |
| Renamer.Directory.MoveWithMetadata | pdf_renamer.py:155-160 | the move succeeds exactly when this call's first write succeeds and the file is readable, and then makes two write calls, else one; on success the destination holds the rewritten contents, the original is gone, and only these and the temporary file change; on failure at most the temporary file changes |
| Renamer.Directory.ListNames | pdf_renamer.py:197 | the listing names every entry exactly once |
| Renamer.Directory.RunPass | pdf_renamer.py:197-199 | the listing names every entry exactly once, and the queue is the newest-first list of the regular ".pdf" files in it, so by `PdfQueueSpec` each such file once; the pass is a `Pass` over it: one `JobStep` per queued file, in order, each from the directory and write count the previous left and with the guess for the given page count; every job but the last returned a path; it is aborted exactly when the last job raised, and otherwise ran the whole queue; the final directory and write count are those the last job left; `done` counts the completed jobs |
| Renamer.Directory.ProcessPdfDirectory | pdf_renamer.py:190-210 | the first pass is a `Pass` with the given page count over the directory as it was; each pass lists every entry exactly once; when it aborts, nothing else happens and no further write is made; otherwise it ran the whole queue and a second `Pass`, with five pages, runs over the directory re-listed as the first pass left it and ends in the final directory |
| Renamer.PassExtend | pdf_renamer.py:197-199 | a pass that has not aborted, followed by one more `JobStep` from where it ended, is a pass one job longer |
| Renamer.StepAppended | pdf_renamer.py:197-199 | appending a job keeps the states and write counts of the earlier jobs and makes the new one's the final ones |
| Renamer.PdfListing | pdf_renamer.py:197 | the filter keeps no more entries than names |
| Renamer.PdfQueue | pdf_renamer.py:197 | the filtered listing sorted newest first; `PdfQueueSpec` states its meaning |
| Renamer.PdfListingSpec | pdf_renamer.py:197 | the filter keeps exactly the listed regular files with a ".pdf" suffix, each once |
| Renamer.PdfQueueSpec | pdf_renamer.py:197 | the queue holds every regular ".pdf" file exactly once, newest first, with ties in listing order |
| Renamer.NameForClean | pdf_renamer.py:151-152 | the sanitized name built from a guess is non-empty and has no '.' and no '/' |
| Renamer.SelfCollision | pdf_renamer.py:95-103 | a clean name whose ".pdf" file exists and whose "_1.pdf" file does not gets the "_1.pdf" name |
| Renamer.RenamedFileMovesOn | pdf_renamer.py:151-160 | a file that already carries the name its guess gives is moved, when the write succeeds, to that name with "_1": the second pass renames files the first pass renamed (pdf_renamer.py:207-209) |
| Renamer.DestinationIsPdf | pdf_renamer.py:151-153 | a job's destination passes the suffix test, and it differs from the sanitized name plus ".pdf" when that is taken |
| Renamer.LowerKeepsPdf | pdf_renamer.py:197 | lower-casing keeps a ".pdf" ending |

## Left out

- The litellm call itself, its keyword arguments and the `response['choices'][0]['message']['content']` indexing are one oracle (`Completion`); failures there are `None`.
- `Completion` is a function of the provider, the prompt and the text, so the second pass gets the same reply for the same text; a real language model may answer differently.
- `json.loads` is an oracle (`JsonLoads`); JSON syntax is not modelled.
- PyPDF2's `PdfReader`/`PdfWriter` internals are not modelled. A file is a `Document`, and a rewritten file keeps its page list and carries the metadata map. The "/Producer" entry that PyPDF2's writer adds by itself is not in that map, so `MetadataFields` and `Rewritten` speak only of the three keys the source writes.
- A page whose `extract_text()` raises aborts the whole extraction (`Fault`). Other exceptions inside the PDF library are folded into an unreadable document.
- All `print` logging is left out; it has no effect on the result.
- `main`, `argparse`, `load_prompt`, `load_dotenv` and `input()` are not modelled. The prompt, the page count and the environment are parameters.
- The two duplicated bodies after the docstring-like strings in `extract_first_n_pages_text` (lines 54-73) and `process_single_pdf` (lines 164-187) are unreachable, so they are not modelled.
- Races with other processes changing the directory between `exists()` and the write are not modelled. The directory changes only through the model's own methods.
- `\w` is modelled as ASCII letters, digits and `_`, and `str.lower()` as ASCII lower-casing. Python's Unicode versions of both are wider. `\s` and `str.strip()` use Python's whitespace set. Pass 2's `re.IGNORECASE` on the tag "json" is modelled as Python applies it: ASCII case, and 'ſ' (U+017F) for 's'.
- A write whose temporary path or destination is a directory is not distinguished from other failures; all are faults of the `open`, the `write` or the `replace`.
- The absolute paths `base_dir / name` are modelled as bare names in one directory.
- Renamer.Directory.MoveWithMetadata: `pdf_path.unlink(missing_ok=True)` (pdf_renamer.py:156) always succeeds in the model. In Python an error there (a `PermissionError`, say) is caught by nothing and would end the batch like the `KeyError`; filesystem permissions are not modelled.
- Renamer.Directory.ProcessSinglePdf: the modification times the job stamps come from the clock and are not stated beyond the write step's own contract.
- ResponseParser.FencedJsonNormalizes: assumes no "```" at all in the prose before the block, as `FencedObjectExtracted` does; a harmless "```" there is not covered.
- LlmProvider.FencedReplyParsed: assumes no "```" at all in the prose before the block, as `FencedObjectExtracted` does; a harmless "```" there is not covered.
- ResponseParser.FencedObjectExtracted: assumes no "```" at all in the prose before the block. A "```" there that begins no match would do no harm, but the lemma does not cover it; `InlineCodeBeforeBlock` shows that single backticks are covered.
- Renamer.Directory.ListNames: the order of `iterdir()` is left unspecified.
