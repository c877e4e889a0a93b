# emailbot, modelled in Dafny

emailbot reads the automated email LinkedIn sends after a job application
and logs the application as a row of a Google Sheets spreadsheet; it also
drafts replies to Gmail messages. This project models the deterministic
core of that bot and proves properties of it:

- `LinkedInJob` (linkedin_job.dfy): building a job record from the
  confirmation email (`fromGmailMsg`), shortening the company and job
  names for the sheet (`shorten_company`, `shorten_name`), and the
  sheet row (`toGoogleSheetsRow`).
- `JobNameRegex` (job_name_regex.dfy): the anchored patterns of
  `LinkedInJobNameRegex` (`START`, `END`, `SLASH`, `BOUND`) written as
  string functions, `normalize`, and the list of noise patterns.
- `SeqTools` (seq_tools.dfy): `seq_startswith`, `extract_letters_from`,
  `uniqs_in`, `stringify_list`, `default_pop`, `setdefaults_of`, and
  `Peeler.peel`/`Peeler.core` over a `Nested` datatype.
- `Utilities` (utilities.dfy): `as_HTTPS_URL` and
  `Debuggable.debug_or_raise`. The module's `default_pop`,
  `stringify_list` and `uniqs_in` behave as the `SeqTools` members do,
  which model them too.
- `CustomDicts` (custom_dicts.dfy): `LazyDict`, `Promptionary` and
  `LazyDotDict` (conversion of nested dicts, dotted-path lookup).
- `Gmailer` (gmailer.dfy): the headers `ReplyTo` derives, `write`,
  `get_name`, and the search filters and ID window of `get_emails_from`.
- `GoogleSheetUpdater` (sheet_updater.dfy): `GCPAuth.get_scopes`,
  `GCPAuth.dictify` over credentials as a map, and the updater's own
  `LinkedInJob.toGoogleSheetsRow`.
- Helper modules. `Wrappers` holds `Option`, `Result` and the Python
  exception kinds. `Text` models Python's `str` methods (`find`, `rfind`,
  `split`, `join`, `replace`, `strip`, `split()`, `removesuffix`, slicing
  with negative indices). `Dates` models `date.isoformat`,
  `datetime.isoformat` and date order.

Code that changes state in place is modelled as imperative Dafny:
- `LazyDict`, `LazyDotDict`, `ReplyTo` and `GCPAuth` are classes.
- `default_pop` and `setdefaults_of` work on `PyList`/`PyDict` objects.
- The loops are methods with loops: the two `while` loops of `fromGmailMsg`, the `while` loop of `lookup`, and the `for` loops of `autodotdictify`, `dictify`, `setdefaults_of` and `shorten_name`. Each method is proved equal to a specification function. The properties the code promises are proved about that function.

Library code the repository does not contain is passed in as functions:
- `Whittler.whittle` and `Whittler.pop`, as a `Whittler` value;
- the parsed HTML, as a `Soup` of anchors and text parts produced by a parser parameter;
- `strptime`, today's date, the IMAP search, and the template's `substitute`.

The model proves only what the visible code guarantees, whatever those functions return.

## Model

| member | source | states |
|---|---|---|
| LinkedInJob.NewJob | emailbot/LinkedInJob.py:82-91 | The fields are the arguments. Without `applied_on` the result is exactly `KeyError`, because `FORMULAS` has no "date" entry. The stored date parses back to `applied_on`. |
| LinkedInJob.ShortenCompany | emailbot/LinkedInJob.py:99-107 | Whatever `Whittler` returns, the result is at most `max_len` long. It is a prefix of the whittled name, and equals it when that already fits. |
| LinkedInJob.AbbreviateAll | emailbot/LinkedInJob.py:122-125 | The loop over `ABBR.values()` whittles with the company abbreviations, then with the job abbreviations. |
| LinkedInJob.TitleNounPosition | emailbot/LinkedInJob.py:127-128 | Without a title noun the position is 1. With one, `ValueError` happens exactly when the noun is not among the words. Otherwise the position is one past the noun's first occurrence. |
| LinkedInJob.CleanName | emailbot/LinkedInJob.py:131 | The normalized name starts with a word character or '(', ends with one or ')', and has no whitespace next to '/'. `strip` keeps it, and `removesuffix("s")` then drops at most one trailing "s", so the result may end in any character: "a/s" gives "a/". |
| LinkedInJob.NormalizeKeepsSlashExample | emailbot/LinkedInJob.py:65-67 | A word character, '/' and 's' (such as "a/s") is left unchanged by `normalize`. |
| LinkedInJob.CleanNameDropsTrailingS | emailbot/LinkedInJob.py:131 | A name that `normalize` leaves unchanged, that ends in "s" and does not start with whitespace, loses exactly that one "s" and nothing else. |
| LinkedInJob.CleanNameCanEndInSlash | emailbot/LinkedInJob.py:131 | The clean-up of a word character, '/' and 's' (such as "a/s") drops the "s" and leaves a name ending in '/' ("a/"). |
| LinkedInJob.NormalizedIsStripped | emailbot/LinkedInJob.py:131 | `strip` changes nothing in text without whitespace at either end, which is what `normalize` returns. |
| LinkedInJob.RemoveSuffixAtMostOne | emailbot/LinkedInJob.py:131 | `removesuffix` of one character either drops exactly that character or leaves text that does not end in it. |
| LinkedInJob.Cut | emailbot/LinkedInJob.py:133-134 | The final cut returns a prefix of the name, and the whole name when it is not too long. |
| LinkedInJob.CutAtLastSpace | emailbot/LinkedInJob.py:133-134 | A name that is too long is cut right after its last space at or after index `len - max_len`. It is cut to "" when no space is there. |
| LinkedInJob.CutCanExceedLimit | emailbot/LinkedInJob.py:133-134 | The cut alone does not bound the length: "aaaaaaa b" with a limit of 3 keeps "aaaaaaa ". |
| LinkedInJob.ShortenName | emailbot/LinkedInJob.py:109-134 | The step-by-step pipeline equals `ShortenedName`: split at `BOUND`, pop, whittle noise, abbreviate, pop twice, clean up, cut. |
| LinkedInJob.ShortenedNameFails | emailbot/LinkedInJob.py:127-128 | `shorten_name` can fail only with `ValueError`, from `words.index`. |
| LinkedInJob.HyperlinkRoundTrip | emailbot/LinkedInJob.py:141 | A `=HYPERLINK("url","title")` cell splits at '"' back into its URL and title, when neither holds a '"'. |
| LinkedInJob.SheetsRow | emailbot/LinkedInJob.py:136-142 | The row has 6 cells: date, company, hyperlink to the URL titled with the name, status formula, source, contact. |
| LinkedInJob.ToSheetsRow | emailbot/LinkedInJob.py:136-142 | The row fails exactly when `shorten_name` fails. Otherwise it is that row, with a company cell of at most 24 characters. |
| LinkedInJob.CompanyOf | emailbot/LinkedInJob.py:152 | The company is the subject text after the last "your application was sent to ", or the whole subject. It never contains the marker. |
| LinkedInJob.DecodeEscaped | emailbot/LinkedInJob.py:156 | Replacing "=3D" by "=" decodes the escaping of '=' (section 6.7 of RFC 2045). |
| LinkedInJob.NoSoftBreakInEscaped | emailbot/LinkedInJob.py:156 | Escaped text holds no soft line break "=\n", so removing soft line breaks leaves it alone. |
| LinkedInJob.DespaceInvertsEscape | emailbot/LinkedInJob.py:155-156 | The clean-up (drop CR, drop "=\n", decode "=3D") gives back any CR-free text whose '=' were escaped. |
| LinkedInJob.BodyOfBounds | emailbot/LinkedInJob.py:157-159 | With both tags present in order, the body runs from `<body` through the last `</body>`. Without `<body` it is at most 1 character; without `</body>` at most 6. |
| LinkedInJob.DropSpaceStrings | emailbot/LinkedInJob.py:165-166 | After the " " strings are extracted, the strings left are exactly the others. |
| LinkedInJob.ExtractSpaceStrings | emailbot/LinkedInJob.py:165-166 | Every anchor and text part of the parsed body loses its " " strings, and keeps its href. |
| LinkedInJob.DropSpaceStringsKeepsStrippedText | emailbot/LinkedInJob.py:165-166 | Extracting " " strings does not change `get_text(strip=True)`. |
| LinkedInJob.ExtractKeepsStrippedTexts | emailbot/LinkedInJob.py:165-173 | After the extraction, every anchor's and part's stripped text and every href are as before, so neither scan depends on the extraction. |
| LinkedInJob.SpaceIsBlank | emailbot/LinkedInJob.py:165 | `" ".strip()` is empty. |
| LinkedInJob.StrippedTextEmpty | emailbot/LinkedInJob.py:173-175 | `get_text(strip=True)` is empty exactly when every string under the element strips to nothing. |
| LinkedInJob.JobLinkScanStops | emailbot/LinkedInJob.py:169-178 | A link the scan stops at is a job link: non-blank text and "/jobs/view/" in its href. Every anchor before it had an href and was not a job link. |
| LinkedInJob.JobLinkScanExhausted | emailbot/LinkedInJob.py:169-180 | The scan ends in `ValueError` exactly when it passes every anchor. |
| LinkedInJob.JobLinkScanMissingHref | emailbot/LinkedInJob.py:172-174 | The scan fails only with `ValueError` or `KeyError`. `KeyError` means it reached an anchor without an href. |
| LinkedInJob.JobLinkScanFinds | emailbot/LinkedInJob.py:169-180 | All the facts above, for one scan: the first job link, or `KeyError` at an earlier anchor without an href, or `ValueError`. |
| LinkedInJob.FindJobLink | emailbot/LinkedInJob.py:169-180 | The first `while` loop returns what the link scan specifies. |
| LinkedInJob.AppDateTextAfterMarker | emailbot/LinkedInJob.py:187-189 | `len(datesplit) > 1` holds exactly when the text holds "Applied on ". `datesplit[1]` is the text after the first marker, up to the next marker or the end. |
| LinkedInJob.ClampToToday | emailbot/LinkedInJob.py:194-196 | A date after today becomes today, and any other date is kept. The result is never after today. |
| LinkedInJob.DateScanFinds | emailbot/LinkedInJob.py:183-198 | The date comes from the first part holding the marker, through `strptime` and the clamp. `ValueError` comes when no part holds the marker or the date does not parse. The date is never after today. |
| LinkedInJob.FindApplicationDate | emailbot/LinkedInJob.py:183-198 | The second `while` loop and the check after it return what the date scan specifies. |
| LinkedInJob.FromGmailMsg | emailbot/LinkedInJob.py:144-204 | The step-by-step method, with its two loops, returns what `GmailJob` specifies. |
| LinkedInJob.GmailJobOutcome | emailbot/LinkedInJob.py:152-204 | A missing Subject gives `AttributeError`. Otherwise the link scan's error comes first, then the date scan's error. When both scans succeed, a job is built exactly when the company is not "", and `ValueError` comes otherwise. A built job's URL and name come from the first job link, and its date is the ISO form of the scanned date. |
| LinkedInJob.GmailJobFields | emailbot/LinkedInJob.py:152-204 | A built job has the subject's company, a URL without '?', source "LinkedIn" and contact "N/A". Its URL and name come from the first job link of the extracted body, and its date is a valid date no later than today. |
| JobNameRegex.BuildPattern | emailbot/LinkedInJob.py:61-63 | `build_pattern` wraps the term as `SPECIAL`, `SEP`, `(?:term)+`, and the term can be read back. |
| JobNameRegex.PatternList | emailbot/LinkedInJob.py:40-55 | The pattern list holds one pattern per term, six in all, in order. |
| JobNameRegex.SlashSub | emailbot/LinkedInJob.py:31 | `SLASH.sub("/", s)` leaves no whitespace next to '/'. It starts with '/' exactly when `s` starts with whitespace and then '/'. It keeps a first character that is neither whitespace nor '/'. |
| JobNameRegex.SlashSubKeeps | emailbot/LinkedInJob.py:31 | Text without whitespace next to '/' is left unchanged by `SLASH.sub`. |
| JobNameRegex.TrimStartKeepsNoSpaceAroundSlash | emailbot/LinkedInJob.py:27 | Removing a `START` match keeps "no whitespace next to '/'". |
| JobNameRegex.TrimEndKeepsNoSpaceAroundSlash | emailbot/LinkedInJob.py:28 | Removing an `END` match keeps "no whitespace next to '/'". |
| JobNameRegex.TrimmedKeepsNoSpaceAroundSlash | emailbot/LinkedInJob.py:27-28 | Removing both matches keeps it. |
| JobNameRegex.NormalizeNoSpaceAroundSlash | emailbot/LinkedInJob.py:65-67 | `normalize` leaves no whitespace next to '/'. |
| JobNameRegex.NormalizeEnds | emailbot/LinkedInJob.py:27-28 | `normalize` leaves a word character or '(' first, and a word character or ')' last. |
| JobNameRegex.NormalizeShape | emailbot/LinkedInJob.py:27-31 | All of the above, and no whitespace at either end. |
| JobNameRegex.NormalizeIdempotent | emailbot/LinkedInJob.py:65-67 | Normalizing twice is normalizing once. |
| JobNameRegex.BoundMatchLength | emailbot/LinkedInJob.py:34 | The `BOUND` match at the start of the text has this length. A match is followed by no whitespace, and there is none when no delimiter follows the leading whitespace. |
| JobNameRegex.BoundSplitShape | emailbot/LinkedInJob.py:113 | The pieces of `BOUND.split` hold no delimiter. A piece does not end in whitespace before a cut, nor start with whitespace after one. |
| JobNameRegex.BoundSplitNoDelimiter | emailbot/LinkedInJob.py:113 | Text without delimiters comes back as one piece. |
| JobNameRegex.BoundSplitFromHead | emailbot/LinkedInJob.py:34 | The first piece starts with the text gathered before the split. |
| SeqTools.SeqStartsWith | emailbot/seq.py:123-130 | `seq_startswith` is true exactly when `prefix` is a prefix of `seq`. |
| SeqTools.SeqStartsWithAppend | emailbot/seq.py:123-130 | `prefix + rest` starts with `prefix`. |
| SeqTools.ExtractLetters | emailbot/seq.py:65-66 | The result holds only ASCII letters and is no longer than the input. |
| SeqTools.ExtractLettersCounts | emailbot/seq.py:65-66 | Each ASCII letter occurs as often as in the input, and no other character occurs. |
| SeqTools.ExtractLettersAppend | emailbot/seq.py:65-66 | The filter distributes over concatenation, so the letters keep their order. |
| SeqTools.ExtractLettersOfLetters | emailbot/seq.py:65-66 | Letters-only text is returned unchanged, so filtering twice is filtering once. |
| SeqTools.UniqsIn | emailbot/seq.py:196-206 | The result is strictly sorted, with no duplicates. It holds exactly the input's strings that do not start with "_". |
| SeqTools.SortedListIsUnique | emailbot/utilities.py:280-292 | Only one strictly sorted list has a given set of elements, so the result does not depend on set iteration order. |
| SeqTools.Insert | emailbot/seq.py:204-205 | Adding one element to a strictly sorted list keeps it strictly sorted, with exactly the old elements and the new one. |
| SeqTools.StrLessTotal | emailbot/seq.py:205 | Python's string `<` orders any two different strings. |
| SeqTools.StrLessTransitive | emailbot/seq.py:205 | Python's string `<` is transitive. |
| SeqTools.StringifyList | emailbot/seq.py:180-193 | The result is "" for an empty list or a non-list, and the lone element for one element. Otherwise it is wrapped in single quotes. |
| SeqTools.StringifyListRoundTrip | emailbot/utilities.py:229-242 | The quoted form of two or more quote-free elements splits at "', '" back into the elements. |
| SeqTools.PyIndex | emailbot/seq.py:59 | Python's index normalisation accepts exactly `-n <= i < n`. |
| SeqTools.ListPop | emailbot/seq.py:50-62 | `pop()`/`pop(i)` take the indexed element and remove it. On `IndexError`, `default` is returned and the list is unchanged. |
| SeqTools.ListPopKeepsElements | emailbot/seq.py:59 | The popped element and the rest hold exactly what the list held. |
| SeqTools.DefaultPopList | emailbot/utilities.py:117-129 | `default_pop` on a list returns and updates it as `ListPop` says. |
| SeqTools.DictPop | emailbot/seq.py:50-62 | `pop(key)` on a present key removes it and returns its value. A missing key returns `default` and leaves the dict unchanged. `pop()` on a dict raises `TypeError`. |
| SeqTools.DefaultPopDict | emailbot/utilities.py:117-129 | `default_pop` on a dict returns and updates it as `DictPop` says. |
| SeqTools.SetDefaults | emailbot/seq.py:141-142 | Every key of either map is in the result. Old values win, and the new keys take the defaults. |
| SeqTools.SetDefaultsIsReversedUpdate | emailbot/seq.py:134-135 | "dict.update that prefers to keep old values": updating the defaults with the old dict. |
| SeqTools.SetDefaultsIdempotent | emailbot/seq.py:141-142 | Setting the same defaults twice is setting them once. |
| SeqTools.SetDefaultsOf | emailbot/seq.py:133-143 | The loop leaves `a_dict` as `SetDefaults` says and returns the keyword arguments, as written. |
| SeqTools.SetDefaultsOfReturnsDefaults | emailbot/seq.py:133-143 | When the caller already has a key with another value, the updated dict keeps the caller's value. It therefore differs from the returned `kwargs`: a caller's `encoding="ascii"` stays in the dict, while "utf-8" is returned. |
| SeqTools.SetDefaultsOfMerged | emailbot/seq.py:133-143 | Corrected: the updated dict is returned, and keeps every old value. |
| SeqTools.Flatten | emailbot/seq.py:116 | `chain` of one list is that list. |
| SeqTools.FlattenMember | emailbot/seq.py:116 | An element is in the chained list exactly when it is in one of the lists. |
| SeqTools.FlattenAppend | emailbot/seq.py:116 | Chaining distributes over concatenation. |
| SeqTools.PeelFindsBuried | emailbot/seq.py:102-120 | `peel` returns exactly the leaves buried at any depth. |
| SeqTools.PeelItemsAppend | emailbot/seq.py:112-116 | The peel of a container is the peels of its items, in order. |
| SeqTools.PeelWrapped | emailbot/seq.py:110-119 | A container of one value peels to that value's peel. An empty container peels to []. |
| SeqTools.MaxLength | emailbot/seq.py:96-97 | `max(sizes)` is at least every size and is the size of some fruit. |
| SeqTools.IndexOfLength | emailbot/seq.py:97 | `sizes.index(m)` is the first position whose size is `m`. |
| SeqTools.Core | emailbot/seq.py:87-100 | `core` returns the first longest fruit, or the only one. With no fruit it raises `IndexError`, and only then. |
| Utilities.AsHttpsUrl | emailbot/utilities.py:31-43 | "https://", then the parts joined by "/". When there are parameters, "?" and the `k=v` pairs joined by "&", in order. |
| Utilities.ParamStrings | emailbot/utilities.py:39 | One `k=v` string per parameter, in insertion order. |
| Utilities.AsHttpsUrlHasQuery | emailbot/utilities.py:41-42 | For '?'-free parts and parameters, the URL holds '?' exactly when parameters are given. |
| Utilities.AsHttpsUrlRoundTrip | emailbot/utilities.py:31-43 | The URL splits back into the path parts and the `k=v` strings. |
| Utilities.DebugOrRaise | emailbot/utilities.py:103-114 | Outside debugging the error is raised again. In debugging nothing is raised. |
| CustomDicts.LazyDict.LazyGet | emailbot/CustomDicts.py:52-64 | A key with a value other than `None` gives that value. Otherwise it gives the getter's result. The dict is not changed (a function). |
| CustomDicts.LazyGetIgnoresGetter | emailbot/CustomDicts.py:52-64 | When the key has a value, the getter plays no part. |
| CustomDicts.LazyDict.LazySetDefault | emailbot/CustomDicts.py:66-82 | The result is what `lazyget` gave. It is stored under the key, and no other key changes. A key that had a value keeps the dict unchanged. |
| CustomDicts.Promptionary.GetOrPromptFor | emailbot/CustomDicts.py:163-176 | `lazyget` with the prompt function called on the prompt. |
| CustomDicts.Promptionary.SetDefaultOrPromptFor | emailbot/CustomDicts.py:178-192 | `lazysetdefault` with the same getter. The answer is stored. |
| CustomDicts.Dotify | emailbot/CustomDicts.py:110-114 | A dict becomes a `LazyDotDict` with the same keys, and any other value stays. |
| CustomDicts.DotifyEntries | emailbot/CustomDicts.py:128-136 | Every dict-valued entry is converted, and every other entry is unchanged. |
| CustomDicts.DotifyLeavesNoPlainDict | emailbot/CustomDicts.py:110-114 | After conversion, no plain dict is reachable through the mappings. |
| CustomDicts.ConstructedHasNoPlainDict | emailbot/CustomDicts.py:110-114 | A constructed `LazyDotDict` holds no plain dict at any depth. |
| CustomDicts.LazyDotDict.constructor | emailbot/CustomDicts.py:110-114 | The entries are stored, then converted. |
| CustomDicts.LazyDotDict.Autodotdictify | emailbot/CustomDicts.py:128-136 | The loop converts each dict-valued entry in place and leaves the others. |
| CustomDicts.Step | emailbot/CustomDicts.py:146-151 | A dict is indexed by key (`KeyError` when missing). A list is indexed by `int(key)` (`ValueError`, `IndexError`). Anything else raises `KeyError`. |
| CustomDicts.WalkAppend | emailbot/CustomDicts.py:144-152 | Walking a path in two pieces is walking the first, then the second. |
| CustomDicts.WalkPath | emailbot/CustomDicts.py:144-152 | The `while` loop popping the reversed path equals walking the "."-split key from left to right. |
| CustomDicts.LazyDotDict.Lookup | emailbot/CustomDicts.py:138-152 | As written: the walk in which a `LazyDotDict` is not a dict. |
| CustomDicts.LookupAlwaysFails | emailbot/CustomDicts.py:146-151 | As written, every lookup raises `KeyError`. |
| CustomDicts.LookupOfTopKeyFails | emailbot/CustomDicts.py:146-151 | For a `LazyDotDict` holding {"a": "1"}, `lookup("a")` raises `KeyError` as written, and gives "1" as intended. |
| CustomDicts.LazyDotDict.LookupPath | emailbot/CustomDicts.py:138-152 | Corrected: a `LazyDotDict` is indexed by key like a dict. |
| CustomDicts.LookupPathOneKey | emailbot/CustomDicts.py:138-152 | A key without dots looks up the entry itself. |
| CustomDicts.LookupPathDotted | emailbot/CustomDicts.py:138-152 | `a.rest` looks up `a`, then `rest` inside it. |
| Gmailer.ReplySubjectRemovesLineBreaks | emailbot/Gmailer.py:52-53 | The subject is "Re: " and the original with every CR and LF removed, so it holds neither. |
| Gmailer.ReplySubjectOfOneLine | emailbot/Gmailer.py:52-53 | A one-line subject is kept whole after "Re: ". |
| Gmailer.ReplySubjectKeepsText | emailbot/Gmailer.py:52-53 | Every other character is kept, as often as it occurs. |
| Gmailer.ReplyAddress | emailbot/Gmailer.py:55 | The address neither starts with '<' nor ends with '>'. It is a stretch of Return-Path with only '<' before it and only '<' and '>' after it. |
| Gmailer.ReplyAddressStretch | emailbot/Gmailer.py:55 | The stretch starts right after the leading '<' characters. |
| Gmailer.ReplyAddressUnbracketed | emailbot/Gmailer.py:55 | A Return-Path without brackets at its ends is kept unchanged. |
| Gmailer.ReplyAddressRoundTrip | emailbot/Gmailer.py:55 | `<a>` gives back `a`. |
| Gmailer.NameTokens | emailbot/Gmailer.py:77-81 | At most one name part per token, and every name part is ASCII letters only. |
| Gmailer.NameTokensMembers | emailbot/Gmailer.py:77-81 | A name part occurs exactly when some token without the Return-Path and without a digit reduces to it. |
| Gmailer.NameTokensAppend | emailbot/Gmailer.py:77-81 | Tokens are taken one by one, in order. |
| Gmailer.GetName | emailbot/Gmailer.py:77-81 | At most one name part per whitespace-separated token of From. |
| Gmailer.WrittenFields | emailbot/Gmailer.py:70-71 | "name" is removed. "sender_name" is its value, or the reply's own name. Every other field stays. |
| Gmailer.WrittenFieldsAgain | emailbot/Gmailer.py:70-71 | Rewriting already rewritten fields changes nothing. |
| Gmailer.Write | emailbot/Gmailer.py:62-75 | The fields dict is rewritten in place. The result is the substituted template, or `AssertionError` when a field is not a template field. |
| Gmailer.ReplyTo.Create | emailbot/Gmailer.py:40-60 | A missing header gives `AttributeError`, and a failing `write` its error. Otherwise a fresh reply with sender, recipient, reply subject, address, name and payload derived from the message. |
| Gmailer.Quoted | emailbot/Gmailer.py:187 | `f'"{value}"'` is the value between double quotes. |
| Gmailer.SearchFilters | emailbot/Gmailer.py:184-187 | A value gives `(key, '"value"')`. An address without a value gives `("FROM", '"address"')`. Otherwise `(key,)`. |
| Gmailer.IdWindow | emailbot/Gmailer.py:189-192 | A reversed suffix of the IDs: the last `how_many` when `0 < how_many < len`, all when `how_many` is 0 or at least the length, and `ids[-how_many:]` when negative. |
| Gmailer.IdWindowNewestFirst | emailbot/Gmailer.py:189-192 | For a positive count: `min(how_many, len)` IDs, newest first. |
| Gmailer.IdWindowZeroKeepsAll | emailbot/Gmailer.py:190-191 | `how_many=0` fetches every ID, because `ids[-0:]` is the whole list. |
| Gmailer.GetEmailIds | emailbot/Gmailer.py:172-194 | The filters, `Peeler.core` of the search response, the split into IDs and the window. An empty response gives `IndexError`. |
| Gmailer.ShortResponseGivesStatus | emailbot/Gmailer.py:189 | For a response `('OK', [id])` whose ID has at most one character, `Peeler.core` picks the status "OK", so "OK" becomes the only ID. |
| GoogleSheetUpdater.GetScopes | emailbot/GoogleSheetUpdater.py:133-139 | One URL per name, each starting with `SCOPE_URL`. |
| GoogleSheetUpdater.GetScopesRoundTrip | emailbot/GoogleSheetUpdater.py:133-139 | Each URL is `SCOPE_URL` + its name, in order. |
| GoogleSheetUpdater.DefaultScopeUrls | emailbot/GoogleSheetUpdater.py:58-61 | The default scopes are the Sheets and Drive URLs. |
| GoogleSheetUpdater.GCPAuth.constructor | emailbot/GoogleSheetUpdater.py:58-61 | The scope names become scope URLs. |
| GoogleSheetUpdater.Attr | emailbot/GoogleSheetUpdater.py:79 | `getattr(creds, key, getattr(creds, "_" + key, None))`: the plain attribute when it exists, else the private one, else `None`. |
| GoogleSheetUpdater.Collected | emailbot/GoogleSheetUpdater.py:76-82 | A key is collected exactly when it was visited, is not stripped, and its value is not `None`. |
| GoogleSheetUpdater.DictifyResult | emailbot/GoogleSheetUpdater.py:63-87 | Keys lie in `KEYS`, none stripped, and no value is `None`. Every such key is present. An "expiry" is the ISO form plus "Z". `AttributeError` comes exactly when an expiry is collected but `creds.expiry` is not a datetime. |
| GoogleSheetUpdater.DictifyPrefersPlainAttribute | emailbot/GoogleSheetUpdater.py:79 | An existing plain attribute wins, even when it is `None`. |
| GoogleSheetUpdater.DictifyFallsBackToPrivate | emailbot/GoogleSheetUpdater.py:79 | `_key` is used when `key` is missing. |
| GoogleSheetUpdater.DictifyStrip | emailbot/GoogleSheetUpdater.py:78 | Stripping one more key drops it and changes nothing else. |
| GoogleSheetUpdater.Dictify | emailbot/GoogleSheetUpdater.py:63-87 | The loop over `KEYS` and the flattening return what `DictifyResult` states. |
| GoogleSheetUpdater.NewSheetJob | emailbot/GoogleSheetUpdater.py:149-155 | The fields are the arguments. Source defaults to "LinkedIn" and contact to "N/A". |
| GoogleSheetUpdater.ToGoogleSheetsRow | emailbot/GoogleSheetUpdater.py:157-160 | 6 cells: "=TODAY()", company, hyperlink, status formula, source, contact. |
| GoogleSheetUpdater.RowIdentifiesJob | emailbot/GoogleSheetUpdater.py:157-160 | For URLs and titles without '"', equal rows come only from equal records. |
| Dates.DateIsoRoundTrip | emailbot/LinkedInJob.py:87 | `isoformat` of a valid date parses back to that date. |
| Dates.DateTimeIso | emailbot/GoogleSheetUpdater.py:84-85 | `datetime.isoformat` is 19 characters, or 26 with microseconds. It starts with the date's ISO form and 'T'. |
| Dates.IsAfterIsCalendarOrder | emailbot/LinkedInJob.py:195 | `(d - today).days > 0` holds exactly when `d` is a different, not earlier, calendar date. |

## Left out

- IMAP transport, MIME body walking, the HTML parser, OAuth and gspread calls are not modelled: they are network I/O or library code. The parsed body is an abstract `Soup` of anchors and text parts. `Peeler.peel2`'s parts are taken as given. The IMAP search is a function parameter.
- `Whittler.whittle`, `Whittler.pop` and `DotDict` belong to an external package and stay abstract. `shorten_company` and `shorten_name` are proved only in what the visible code guarantees.
- The `TERMS` and `TITLE` regular expressions are kept as their source text. What they match is the `Whittler` parameter's business.
- `strptime` and `date.today()` are parameters. Timezone-aware datetimes are not modelled: `datetime` is a valid naive `DateTime`.
- `LinkedInJob.ClampToToday`, `LinkedInJob.GmailJob`: `date.today()` is read twice in the source, once for the comparison and once for the replacement (emailbot/LinkedInJob.py:195-196). The model reads it once, as the parameter `today`, so a date change between the two reads is not modelled.
- `\w` and `\d` are taken as ASCII; `\s` is Python's `str.isspace` set. Unicode word characters are not modelled.
- `Text.Words`: `str.split()` on Unicode whitespace is modelled by `IsSpace`, and `bytes.split()` (the IMAP response) by `IsAsciiSpace`.
- `Bytesifier`, `stringify`'s byte decoding, `Cryptionary`, `AttributeDict`, `Xray`, logging, timing and the interactive debugger are not part of this model. `stringify_list` takes the element-to-string function as a parameter.
- `utilities.peel` and `is_peelable` are not modelled: they rely on reflection, and `peel` loops forever on an empty container.
- `Peeler.can_peel` is replaced by the `Nested` datatype: a leaf is what it rejects.
- The `LazyDotDict` attribute aliasing and pickling hooks are not modelled: they are Python object-model behaviour.
- `CustomDicts.LazyDotDict.constructor`: the class sets `__setattr__ = dict.__setitem__` (emailbot/CustomDicts.py:103). Its base `UserDict` assigns `self.data` during `__init__`, and `dict.__setitem__` rejects a receiver that is not a `dict`. So construction through `LazyDotDict(...)` would raise `TypeError` before `autodotdictify` runs. This is not modelled: the constructor stores the entries, as the methods that follow it expect.
- `Gmailer.GetEmailIds`: `Peeler` comes from the `gconanpy` package, which is not part of this model. Its `core` is taken to behave as `Peeler.core` in emailbot/seq.py does (`SeqTools.Core`). Under that reading the status string of the IMAP response competes with the ID list: `ShortResponseGivesStatus`.
- `CustomDicts.PyInt`: Python's `int()` also accepts `_` between digits ("1_0" is 10) and non-ASCII decimal digits. The model accepts ASCII digits only, so `Step` gives `ValueError` for such a list index where Python indexes the list.
- `SeqTools.Core`: every fruit is a sequence, so the `TypeError` that `len(f)` raises for an unsized fruit among several (emailbot/seq.py:95) is not modelled.
- `SeqTools.UniqsIn`: the in-place `sort` of the de-duplicated list is modelled by its result, a strictly sorted list. The sorting algorithm and the set's iteration order are not modelled; `SortedListIsUnique` shows the order does not matter.
- `uniqs_in` in seq.py applies `startswith` to arbitrary hashables. Only strings are modelled.
- `Gmailer.ReplyTo.Create`, `Gmailer.Write`, `Utilities.DebugOrRaise`: only the non-debugging path is modelled. With `debugging` set, the interactive debugger runs and the object may be left half-built.
- `Gmailer.ReplyTo.Create`: a missing header is `AttributeError`, because `None.replace` raises it. Later header writes of `EmailMessage` are not modelled beyond the stored fields.
- `LinkedInJob.FromGmailMsg`: `msg.as_string()` is the `raw` field. The anchors' `href` lookup is modelled as `KeyError` when absent. A company of "" gives `ValueError`, as `str.split` with an empty separator does.
- `Promptionary` is modelled as a wrapper around a `LazyDict`, not a subclass. `debugging` is stored but plays no part in the prompt wrappers.
- Integer widths do not arise: `how_many` and indices are unbounded integers, as Python's are.
- `LinkedInJob.ShortenCompany`, `LinkedInJob.ShortenName`, `LinkedInJob.Cut`, `LinkedInJob.IsTooLong`: `max_len` is a `nat`. A negative `max_len`, for which `name[:max_len]` would slice from the end, is excluded. The callers pass only 24 and 30.
- `Gmailer.SearchFilters`, `Gmailer.GetEmailIds`: `value` may be any Python object, tested for truthiness and formatted with `str`. The model takes an optional string, truthy when present and non-empty.

## Findings

| source | as written | input that shows it | evidently intended | confidence | as-written member | corrected member |
|---|---|---|---|---|---|---|
| emailbot/CustomDicts.py:146-151 | `lookup` indexes a value only when `isinstance(v, dict)`. A `LazyDotDict` is a `UserDict`, not a `dict`, so for every instance the first step raises `KeyError` | `d.lookup("a")` for any `LazyDotDict` `d` holding {"a": "1"} (building one through `LazyDotDict(...)` already fails with `TypeError`; see "## Left out") | the value "1": a `LazyDotDict` is indexed by key like a dict | not executed | CustomDicts.LookupAlwaysFails | CustomDicts.LookupPathOneKey |
| emailbot/seq.py:133-143 | `setdefaults_of` returns `kwargs`, not the updated `a_dict`; `bytesify` passes that result on, so a caller's own keyword arguments are lost | `setdefaults_of({"encoding": "ascii"}, encoding="utf-8")` returns `{"encoding": "utf-8"}` | the merged dict `{"encoding": "ascii"}` | not executed | SeqTools.SetDefaultsOfReturnsDefaults | SeqTools.SetDefaultsOfMerged |
