# lab-bot core in Dafny

A functional model of the pure pipeline of lab-bot, a lab-report explainer.
A parsed report goes through five stages:

- **Classification and explanation.** Each value is classified against its reference range and explained in a patient-friendly sentence. The report as a whole gets an overall summary, a per-category summary and a safety notice (`explanation_engine.py`, glued by `demo.py`).
- **Parsing.** Report tables, or the report text line by line, become rows of name, value, unit, range and status (`labbot/parser.py`). `summary.py` turns those rows into a plain English summary.
- **Translation.** Before machine translation, numbers and units are hidden behind `__VAL_i__` placeholders. Afterwards the placeholders are restored, glossary phrases are enforced and long sentences are broken (`labbot/translator.py`, `translator.py`).
- **Speech.** The text is prepared for speech: decimals are spoken, the text is split into sentences and packed into chunks (`labbot/tts_service.py`, `tts_service.py`).
- **Delivery.** The small helpers that deliver the result: phone-number extraction and formatting, WhatsApp parameter sanitising, and a `Content-Type` style header parser (`labbot/phone_utils.py`, `app.py`, `whatsapp.py`, `labbot/whatsapp_client.py`, `cgi.py`).

Every operation is a pure function over immutable datatypes: `Option`/`Result`, records, `seq<char>` strings and exact `real` numbers.

Each regular expression of the source is a hand-written scanner:

- `Decimals` handles `-?\d+(\.\d+)?` and `\d+(\.\d+)?`, and its matches are proved to be the leftmost, longest, non-overlapping matches of an independent grammar;
- `Phones` handles the mobile-number pattern, proved the same way;
- `SpokenNumbers` handles `DECIMAL_PATTERN`, and is proved to find a decimal exactly where an independent reading of the pattern matches, with the same end;
- `Masking` handles `RANGE_PATTERN` and `VALUE_PATTERN` with no grammar to compare against. What is proved is weaker: a match starts with a digit at a word boundary and spans only characters the patterns consume, and the common shapes (`70-110 mg/dL`, `134 mg/dL`) are matched whole. Given the scanner, `MaskingScan` proves that each `sub` pass replaces exactly the leftmost, non-overlapping matches, numbered in order.

`Text` provides the pieces of Python's `str` API that the pipeline uses. `Seqs` provides order-preserving de-duplication. `Stops` provides `re.split(r"([.!?])", …)`. `Packing` provides the greedy chunk packer shared by both speech formatters.

Where the two copies of a file agree, they are modelled once:

- the masking, unmasking, glossary and reflow code of `translator.py` and `labbot/translator.py`;
- the two WhatsApp files;
- the two mobile-number extractors.

The two speech formatters differ, so `Speech` and `NaiveSpeech` model them separately.

## Model

| member | source | states |
|---|---|---|
| Engine.ComputeFlagAndSeverity | explanation_engine.py:57-93 | A missing bound gives ("unknown", "unknown", doctor, no urgency). With both bounds the severity is never unknown. It is normal iff low ≤ v ≤ high, and the flag points low iff v < low. Urgency holds iff the severity is critical, and a doctor is recommended iff the severity is not normal. |
| Engine.ClassificationThresholds | explanation_engine.py:73-91 | The ratio tests, stated without division. Below a positive low bound, v < 0.5·low is critical and v ≥ 0.9·low is borderline. Above a positive high bound, v ≥ 2·high is critical and v < 1.2·high is borderline. A non-positive bound makes the ratio 0. |
| Engine.SeverityMonotoneBelow | explanation_engine.py:74-81 | Below the range, a smaller value never gets a milder severity. |
| Engine.SeverityMonotoneAbove | explanation_engine.py:84-91 | Above the range, a larger value never gets a milder severity. |
| Engine.DemonstrationClassifications | explanation_engine.py:259-274 | The two demonstration tests: 134 against 70-110 is high/abnormal, and 210 against 0-200 is high/borderline. A third case, 40 against 100-150, is critical_low/critical with urgency. |
| Engine.FmtNumIntegral | explanation_engine.py:95-109 | An integral value is written as an integer literal that reads back to the same number. |
| Engine.MentionsLowIffBelow | explanation_engine.py:141 | `"low" in flag` holds exactly for the flags low and critical_low. |
| Engine.EndingShape | explanation_engine.py:132-167 | Every severity's text quotes the range and ends with that severity's own closing sentence. Outside the range it says ", which is <direction> ". |
| Engine.EndingCritical | explanation_engine.py:155-161 | The critical text starts ", which is <direction> ", quotes the range and ends "This can be serious.". |
| Engine.EndingNormal | explanation_engine.py:133-137 | The normal text ends "This is within the usual healthy range (<range>).". |
| Engine.EndingUnknown | explanation_engine.py:163-167 | The fallback text ends "The usual healthy range is <range>.". |
| Engine.SummaryQuotesRange | explanation_engine.py:113-130 | The summary starts "Your <name> " and contains the range text: "low-high unit", "low-high" without a unit, or "the usual healthy range" without bounds. |
| Engine.SummaryDirection | explanation_engine.py:139-161 | Outside the range, the summary names the direction chosen by the flag. |
| Engine.SummaryClosing | explanation_engine.py:132-167 | The summary ends with the closing sentence of its severity. |
| Engine.EvaluateTest | explanation_engine.py:170-186 | A missing or empty category is looked up from the name. No other field of the test changes. Flag, severity and recommendations are the classification, and the text is the summary of the updated test. |
| EngineExamples.CategoryLookupExample | explanation_engine.py:172-174 | " HbA1c " is stripped and lower-cased into the key "hba1c", which maps to "blood sugar". |
| EngineExamples.FastingSugarExample | explanation_engine.py:259-275 | The demonstration's fasting blood sugar gets the category "blood sugar" and high/abnormal. Its text says ", which is higher " and quotes "70-110 mg/dL". |
| Engine.CountOutsideZero | explanation_engine.py:195 | The outside count is zero iff no evaluation is borderline, abnormal or critical; unknown is not counted. |
| Engine.OverallSummaryCases | explanation_engine.py:192-217 | The reassuring text appears iff nothing is outside the range. The urgent clause appears iff some evaluation is critical. |
| Engine.ChangedCategoriesSpec | explanation_engine.py:219-233 | The mentioned categories are exactly those other than "other" with a non-normal evaluation, unknown included. They have no duplicates and come in first-seen order. |
| Engine.CategorySummarySpec | explanation_engine.py:225-234 | The category summary is the change sentences joined by spaces. It is empty iff no category qualifies. |
| Engine.SafetyNoticeUrgent | explanation_engine.py:236-250 | The urgent notice is chosen iff some evaluation is critical, given that urgency coincides with critical severity. |
| Engine.EvaluateReport | explanation_engine.py:189-190 | One evaluation per test, in order, each the test's own evaluation. |
| Engine.ReportOverallSpec | explanation_engine.py:192-217 | For the whole report: the reassurance appears iff no test is outside its range, and the urgent clause iff some test is critical. |
| Engine.ReportCategorySpec | explanation_engine.py:219-234 | For the whole report: the category summary joins one sentence per changed category and is empty iff none changed. |
| Engine.ReportSafetySpec | explanation_engine.py:236-250 | For the whole report: the notice is one of the two texts, and it is the urgent one iff some test is critical. |
| Demo.BuildEnglishText | demo.py:7-24 | The returned report's evaluations are the tests' evaluations, in order. |
| Demo.BuildEnglishTextShape | demo.py:7-24 | The report is `evaluate_report(tests)`. The text is the per-test summaries joined by spaces, with a space after them when there are tests. Then come the overall summary, then the category summary, each only when non-empty, and last the safety notice, all space-separated; each of the four empty/non-empty combinations is stated exactly. The notice is the urgent one iff some test is critical. |
| Demo.ReportTextCases | demo.py:10-23 | For any report with one of the two notices, the same four combinations, as exact texts. |
| Demo.PartsJoin | demo.py:16-23 | Present report-level texts are joined by single spaces and absent ones leave no trace. |
| Demo.EmptyCategoryAddsNothing | demo.py:16-23 | An empty category summary adds no part, so no double space. |
| Parser.ParseRange | labbot/parser.py:20-32 | A missing cell gives no range. |
| Parser.ParseRangeOfRendered | labbot/parser.py:20-32 | Two numbers written with any digit-free separator and unit read back as (first, second), in written order. |
| ParserExamples.RangeCellExample | labbot/parser.py:20-32 | "12-15 g/dL" gives (12, 15). |
| ParserExamples.ReversedRangeCellExample | labbot/parser.py:29-31 | "15-12" gives (15, 12): no reordering. |
| ParserExamples.NoRangeCellExample | labbot/parser.py:30-32 | "Negative" gives no range. |
| Parser.ParseValue | labbot/parser.py:34-49 | A missing cell gives no value. |
| Parser.ParseValueOfRendered | labbot/parser.py:34-49 | An integer after a digit-free prefix reads back as itself, sign included. |
| ParserExamples.ValueCellExample | labbot/parser.py:34-49 | "<200 mg/dL" gives 200. |
| ParserExamples.MinusSignValueExample | labbot/parser.py:42-46 | "−5 mmol/L" with U+2212 becomes "-5" and gives -5. |
| Parser.NormalizeDashesSpec | labbot/parser.py:28 | The length is kept, no en dash, em dash or minus sign survives, and at each position a dash variant becomes '-' while every other character is kept. |
| Parser.NormalizeDashesAsReplace | labbot/parser.py:28 | Normalising equals the three chained substring replacements of the en dash, the em dash and the minus sign by '-'. |
| Parser.MapHeadersSpec | labbot/parser.py:51-73 | A role's column is the first header whose first matching keyword group is that role. A role has no column iff no header matches it. |
| Parser.MapHeadersDistinct | labbot/parser.py:57-72 | Two roles never share a column. |
| ParserExamples.ReferenceValueHeaderExample | labbot/parser.py:61-66 | "Reference Value" is a value column: the elif order lets "value" win over "ref". |
| Parser.ClassifyStatus | labbot/parser.py:75-88 | Unknown iff an argument is missing. Below iff v < low, tested first. Above iff low ≤ v and v > high. Otherwise within. |
| Parser.RowRecordSpec | labbot/parser.py:125-154 | A row gives a record iff some cell is truthy, the mapped columns exist, and the value and range parse. The record then has the stripped name, the stripped unit cell ("" when no unit column is mapped), the parsed value and range, and the classified status. |
| Parser.TablesRecordsSpec | labbot/parser.py:112-123 | Every record is consistent. Tables shorter than two rows, or without name, value and range columns, give nothing. |
| Parser.ExtractTests | labbot/parser.py:156 | The full text is the page texts joined by newlines, a missing text counting as "". |
| Parser.ExtractTestsSpec | labbot/parser.py:158-163 | The table rows are used when there are any, otherwise the line fallback over the full text. Every row is consistent. |
| Parser.LineRecordSpec | labbot/parser.py:185-226 | A line gives a row iff it is non-blank, mentions no header keyword, has at least three numbers and a name, and the value and bounds are not all equal. The row has the text before the first number as its name, the first number as its value, and the stripped text from there to the next number as its unit. The range holds the last two numbers, ordered. |
| Parser.LinesRecordsSpec | labbot/parser.py:185-246 | Every fallback row is consistent and has low ≤ high. |
| Parser.UnitBetweenFirstNumbers | labbot/parser.py:228-233 | The unit is the stripped text between the first two numbers. |
| ParserExamples.FallbackLineExample | labbot/parser.py:177-180 | "Hemoglobin 9.4 g/dL 12 - 15" gives Hemoglobin, 9.4, g/dL, 12..15, below. |
| ParserExamples.FallbackHyphenRangeExample | labbot/parser.py:183-222 | "Hb 9.4 g/dL 12-15" reads the numbers 9.4, 12 and -15 with the signed pattern. After the swap the range is -15..12 and the status is within. |
| Decimals.FindAll | labbot/parser.py:199 | Every match is a non-empty span inside the text. |
| Decimals.FindAllIsLeftmost | labbot/parser.py:29 | The scanner returns exactly the leftmost, longest, non-overlapping matches of `-?\d+(\.\d+)?` (signed) or `\d+(\.\d+)?`, per an independent grammar. |
| Decimals.FindAllConcat | labbot/parser.py:200 | Scanning two pieces that cannot join into one literal gives the first piece's matches, then the second's shifted. |
| Decimals.NatToStringScansBack | labbot/parser.py:29-31 | A rendered natural number is one literal whose value is that number. |
| Decimals.IntToStringScansBack | labbot/parser.py:43-46 | A rendered integer, minus sign included, is one signed literal whose value is that integer. |
| Masking.MaskRoundTrip | labbot/translator.py:18-43 | For text without '_', unmasking the masked text with its entries restores the text. |
| Masking.UnmaskFramed | labbot/translator.py:37-43 | Unmasking restores the masked text even when text without '_' is added before and after it, as a translation does. |
| Masking.MaskEntries | labbot/translator.py:25-28 | Every recorded entry is a whole match: non-empty, a digit first, and only characters the two patterns consume. |
| Masking.MaskTokens | labbot/translator.py:25-32 | For text without '_', the masked text has a token reading whose plain tokens are '_'-free and whose slots name recorded entries; filling every slot with its entry gives back the input. No entry contains '_'. |
| Masking.MaskNoDigits | labbot/translator.py:31-34 | Text without digits is unchanged and records nothing. |
| Masking.MaskKeepsNonBlankEnd | labbot/translator.py:31-32 | Masking keeps a non-blank last character non-blank. |
| MaskingScan.SubFromScan | labbot/translator.py:25-31 | One `sub` pass from a position writes the leftmost scan with its j-th match replaced by placeholder `len(masks) + j` and copies elsewhere. It appends the scan's matches, in order and each whole, to the entries. |
| MaskingScan.ScanLeftmost | labbot/translator.py:31-32 | The scan reassembles the text. Wherever a match starts at the current position it takes exactly that match, and it copies a character only where none starts: leftmost, non-overlapping. |
| MaskingScan.LeftmostUnique | labbot/translator.py:31-32 | Any split of the text into copies and matches that obeys that rule is the scan, so the matches a pass replaces are determined. |
| MaskingScan.NumberAt | labbot/translator.py:26-28 | A copied piece becomes its character. A match becomes the slot numbered after the matches before it, and the entry under that number is exactly the match. |
| MaskingScan.MaskScans | labbot/translator.py:30-34 | Masking scans the input for ranges, numbering them from 0, then scans that result for values, numbering them after the ranges. The entries are the range matches followed by the value matches. |
| MaskingScan.RangeAt | labbot/translator.py:10-12 | Digits, a dash, digits, one blank and a unit, at a word boundary and not followed by a unit character, are matched whole as a range. |
| MaskingScan.NoRangeAt | labbot/translator.py:10-12 | A number followed by one blank and then neither a blank nor a dash starts no range. |
| MaskingScan.ValueAt | labbot/translator.py:13-15 | Digits, one blank and a unit ending in a letter, with word boundaries on both sides, are matched whole as a value. |
| MaskingScan.SubFromOneMatch | labbot/translator.py:25-31 | With no digit at a word boundary outside one match, a pass copies the text around it, writes the next placeholder in its place and records it as the one new entry. |
| MaskingScan.RangePassExample | labbot/translator.py:31 | On "134 mg/dL (70-110 mg/dL)" the range pass gives "134 mg/dL (__VAL_0__)" with the entry "70-110 mg/dL". |
| MaskingScan.ValuePassExample | labbot/translator.py:32 | The value pass then gives "__VAL_1__ (__VAL_0__)" and records "134 mg/dL". The digit inside `__VAL_0__` is not at a word boundary and is left alone. |
| MaskingScan.MaskExample | labbot/translator.py:18-34 | "134 mg/dL (70-110 mg/dL)" masks to "__VAL_1__ (__VAL_0__)" with the entries "70-110 mg/dL" and "134 mg/dL". |
| Glossary.ApplyGlossaryContains | labbot/translator.py:83-94 | For every phrase of the original, case-insensitively, with a translation in the language, the result contains that translation. |
| Glossary.ApplyGlossaryKeeps | labbot/translator.py:89-94 | When every applicable translation is already present, the result is the stripped translation. |
| Glossary.ApplyGlossaryOtherLanguage | translator.py:84-87 | A language without glossary entries gives the stripped translation. |
| Glossary.ApplyGlossaryPrefix | labbot/translator.py:90-94 | The result starts with the stripped translation: the glossary only appends. |
| Glossary.ApplyGlossaryIdempotent | translator.py:82-93 | Applying the glossary to its own result changes nothing. |
| Glossary.AbnormalTriggersNormal | labbot/translator.py:83-92 | An original saying "abnormal" makes the "normal" entry apply, because the test is a substring test. A Marathi translation lacking "सामान्य आहे" gets it appended after a blank. |
| Reflow.ShortenKeepsNonSpace | labbot/translator.py:150-168 | Reflowing keeps every non-whitespace character, in order. |
| Reflow.ShortenSentences | labbot/translator.py:168 | The result is stripped. |
| Reflow.ReflowCons | labbot/translator.py:155-166 | A segment closed by '.', '!' or '?' is stripped and followed by "\n" when longer than the limit, otherwise by " ". |
| Reflow.ShortenNoStop | labbot/translator.py:167-168 | Text without '.', '!' or '?' gives the stripped text. |
| Reflow.ShortenShortNoBreak | translator.py:177-181 | Text no longer than the limit and without newlines gets no line break. |
| Reflow.ShortenSplitsDecimal | translator.py:171-181 | A decimal point counts as a sentence end: "9.4" becomes "9. 4". |
| Translator.TranslateExplanation | labbot/translator.py:124-148 | The pipeline fails iff the backend fails on the masked text, with the backend's message. |
| Translator.TranslateExplanationFails | labbot/translator.py:130-133 | A failing backend makes the whole explanation fail with its message. |
| Translator.EchoPipeline | translator.py:103-109 | With the echo backend, the result is the reflow of "[lang MT HERE] " + the original text + the glossary appendix, and it keeps the non-whitespace characters of that text. |
| Chunking.ChunkTextShort | labbot/translator.py:197-202 | Blank text gives [""], and stripped text within the limit gives [stripped text]. |
| Chunking.ChunkTextLong | labbot/translator.py:204-218 | Longer text is split after '.', '!' or '?' plus whitespace. The sentences are packed in order into groups, and every group but the last is full: its next sentence would overflow the limit. Each chunk is its group joined by single spaces, and a chunk over the limit holds a single sentence. |
| Chunking.ChunkTextKeepsNonSpace | labbot/translator.py:192-218 | The chunks keep every non-whitespace character, in order. |
| WebBackend.MapLang | labbot/translator.py:183-190 | "mr"/"marathi" in any case give "mr", and "hi"/"hindi" give "hi". Anything else gives the lower-cased input. |
| WebBackend.MapLangIdempotent | labbot/translator.py:183-190 | Mapping a mapped code again changes nothing. |
| WebBackend.ReplyTextOfSentences | labbot/translator.py:237-243 | The reply text is the translated parts of the segments, concatenated. |
| WebBackend.TranslateChunks | labbot/translator.py:252-258 | Chunks are translated in order. On success each output is its chunk's translation. The error is the first chunk's failure. |
| WebBackend.TranslateEmpty | labbot/translator.py:246-247 | Empty text gives "" without a request. |
| WebBackend.TranslateChunked | labbot/translator.py:245-260 | Translation succeeds iff every chunk does, giving the translations joined by single spaces. Otherwise it fails with the wrapped message of the first failing chunk: every chunk before it translated. |
| WebBackend.TranslateIdentityKeepsNonSpace | labbot/translator.py:245-260 | With an identity request, translating keeps every non-whitespace character. |
| SpokenNumbers.DecimalAtIsTheMatch | labbot/tts_service.py:17 | The scanner finds a decimal at a position exactly where `\b(\d+)\s*\.\s*(\d+)\b` matches, with the same end. |
| SpokenNumbers.SpokenCases | labbot/tts_service.py:23-32 | All-zero fractions are dropped. Any other decimal is spoken "int point frac". |
| SpokenNumbers.NormalizeWholeDecimal | labbot/tts_service.py:21-34 | A text that is one decimal is replaced by its spoken form. |
| SpokenNumbers.NormalizeNoDot | labbot/tts_service.py:34 | Text without '.' is unchanged. |
| SpeechExamples.NormalizeWholeNumber | labbot/tts_service.py:27-29 | "16.0" becomes "16". |
| SpeechExamples.NormalizeDecimal | labbot/tts_service.py:31-32 | "9.4" becomes "9 point 4". |
| Speech.SplitSentencesShape | labbot/tts_service.py:47-84 | Sentences are non-empty and stripped, and each one but the last ends at a break. Formatting normalises the numbers, then joins the sentences with "\n". |
| Speech.SplitSentencesCons | labbot/tts_service.py:56-65 | At a break, the stripped segment with its punctuation is a sentence. An empty segment is dropped. |
| Speech.SplitSentencesNoBreak | labbot/tts_service.py:67-72 | Text without a break gives its stripped self, or nothing when blank. |
| Speech.DecimalPointsKeepSentence | labbot/tts_service.py:49-72 | Text with no '!' or '?', whose every '.' has a digit before or after it, is not split: it gives its stripped self, or nothing when blank. |
| SpeechExamples.SplitSentencesKeepsDecimal | labbot/tts_service.py:51-70 | "Your value is 9.4 g/dL. It is normal." splits into exactly those two sentences. |
| Speech.ChunkForTtsEmpty | labbot/tts_service.py:87-105 | Empty text gives no chunks. |
| Packing.PackShape | labbot/tts_service.py:94-103 | Packing groups the lines in order, each line in exactly one group. Every group fits except a single over-long line, and every group but the last is full: its next line would overflow the limit. Each chunk is its group joined and stripped. |
| Packing.GroupsMaximal | labbot/tts_service.py:94-99 | A chunk is flushed only when the next line would push it past the limit, so every group but the last is full. |
| Packing.GroupsUnique | labbot/tts_service.py:92-103 | Any split of the lines into consecutive groups that fit and are full is the loop's split: greedy packing is the only one. |
| Packing.ChunkLinesShape | labbot/tts_service.py:89-105 | The lines are the formatted text split at "\n". The chunks come from packing the lines into consecutive groups that fit, every group but the last being full. |
| Packing.ChunkLinesKeepsNonSpace | tts_service.py:60-76 | The chunks keep every non-whitespace character of the formatted text. |
| Packing.PackBlank | labbot/tts_service.py:102-105 | A single empty line packs into no chunk. |
| NaiveSpeech.SplitSentencesShape | tts_service.py:34-46 | Sentences are non-empty and stripped, and each one but the last ends in '.', '!' or '?'. |
| NaiveSpeech.SplitSentencesKeepsNonSpace | tts_service.py:34-46 | The sentences keep every non-whitespace character, in order. |
| NaiveSpeech.SplitSentencesCons | tts_service.py:39-43 | Every '.', '!' or '?' closes a sentence. |
| NaiveSpeech.SplitSentencesNoStop | tts_service.py:44-46 | Text without a stop gives its stripped self, or nothing when blank. |
| SpeechExamples.SplitSentencesDecimal | tts_service.py:36-43 | "9.4" splits into "9." and "4". |
| NaiveSpeech.ChunkForTtsKeepsNonSpace | tts_service.py:48-76 | Formatting and chunking keep every non-whitespace character. |
| NaiveSpeech.ChunkForTtsEmpty | tts_service.py:56-76 | Empty text gives no chunks. |
| WhatsApp.FormatPhone | whatsapp.py:8-26 | The result has only digits. |
| WhatsApp.FormatPhoneSpec | labbot/whatsapp_client.py:15-26 | Ten digits get "91" in front. "0" plus ten digits loses the 0 and gets "91". Twelve digits starting "91", and every other count, are returned as they are. |
| WhatsApp.FormatPhoneIdempotent | labbot/whatsapp_client.py:8-26 | Formatting a formatted number changes nothing. |
| WhatsApp.PrefixedNumberExample | labbot/whatsapp_client.py:11-13 | "+91 9876543210" gives "919876543210". |
| WhatsApp.LocalNumberExample | whatsapp.py:11-12 | "9876543210" gives "919876543210". |
| WhatsApp.Sanitize | labbot/whatsapp_client.py:60-61 | Missing or empty text gives "". |
| WhatsApp.SanitizeSpec | labbot/whatsapp_client.py:53-76 | There is no newline, CR or tab, no two adjacent whitespace characters, and at most 403 characters. Cleaned text within 400 characters keeps the text's words, as `str.split()` reads them, and so its non-whitespace characters. Longer text becomes its first 400 characters plus "...". |
| WhatsApp.CollapseKeepsWords | labbot/whatsapp_client.py:66-67 | Collapsing whitespace runs keeps the words. No word is joined to its neighbour or split. |
| WhatsApp.CleanedKeepsWords | labbot/whatsapp_client.py:63-69 | Blanking controls, collapsing and stripping keep the words of the text. |
| WhatsApp.SanitizeIdempotent | whatsapp.py:53-76 | Sanitising a result of at most 400 characters changes nothing. |
| WhatsApp.CleanedIdempotent | labbot/whatsapp_client.py:63-69 | Blanking, collapsing and stripping twice is the same as once. |
| Phones.FindMobilesFromIsLeftmost | labbot/phone_utils.py:10-11 | The scanner returns exactly the leftmost non-overlapping matches of `(?:\+91[-\s]*)?[6-9]\d{9}`, per an independent grammar. |
| Phones.MobileEndIsTheMatch | labbot/phone_utils.py:10 | A match at a position ends exactly where the scanner says. |
| Phones.ExtractPhoneNumbers | labbot/phone_utils.py:5-20 | Missing or empty text gives []. The result has no duplicates, every element is a mobile number, and exactly the matched numbers appear. |
| Phones.ExtractPhoneNumbersOrder | app.py:41-47 | The numbers keep the order of their first occurrence among the matches. |
| Phones.ExtractPhoneNumbersLoop | app.py:31-47 | The seen-set loop computes the same list. |
| Seqs.KeepFirstOccurrences | labbot/phone_utils.py:13-18 | The loop keeps the first occurrence of each element: the elements are the same, without duplicates. |
| Seqs.DedupOrder | labbot/phone_utils.py:15-18 | Kept elements are in the order of their first occurrence. |
| Summary.Abnormal | summary.py:14 | A row is kept iff it is one of the rows and its status is below or above; no more rows are kept than there are. |
| Summary.AbnormalOrder | summary.py:14 | All rows listed means all are kept. Nothing is kept iff no row is below or above. |
| Summary.SummaryAllWithin | summary.py:18-22 | The fixed "All the test values…" line, then the disclaimer, appears iff no row is below or above. |
| Summary.SummaryListsRows | summary.py:23-58 | Otherwise: the heading, one line per listed row, and the disclaimer, joined by "\n". The listed rows are built row by row: reading row k appends it exactly when it is below or above, starting from nothing and ending at the whole filter. This fixes the order to the table's order. |
| Summary.AbnormalConcat | summary.py:14 | Filtering two tables one after the other is filtering them joined, so the filter keeps row order. |
| Summary.AbnormalOne | summary.py:14 | A single row is kept iff its status is below or above. |
| Summary.RowLineEnds | summary.py:37-50 | A row's line ends with the sentence for its direction. |
| Summary.SummaryEndsWithDisclaimer | summary.py:52-58 | The output always ends with the disclaimer. |
| Summary.OpeningLinesDiffer | summary.py:18-27 | The reassurance and the heading are different texts. |
| Cgi.ParseHeader | cgi.py:15-16 | Missing or empty input gives ("", {}). |
| Cgi.ParseHeaderAllBlank | cgi.py:18-19 | Input whose ';'-parts are all blank gives ("", {}). |
| Cgi.ParseHeaderMain | cgi.py:18-19 | The main value is the first non-blank part, stripped. |
| Cgi.ParseHeaderParams | cgi.py:22-27 | A key has a parameter iff some later part sets it. Its value is the one the last such part sets. |
| Cgi.ParamOf | cgi.py:23 | A part is a parameter iff it contains '='. |
| Cgi.ParamOfSplit | cgi.py:24-26 | The split is at the first '='. The key is stripped and lower-cased, and the value is stripped of whitespace, then '"', then "'". |
| Cgi.ParamOfRendered | cgi.py:22-27 | A key and a value, quoted or not, written as key=value read back as themselves. |
| Cgi.LastValueSpec | cgi.py:22-27 | The independent definition: a key's value is the one set by its last setter. |
| Cgi.AddParamsLastWins | cgi.py:27 | Filling the dictionary part by part agrees with that definition: a later duplicate overwrites. |
| Cgi.ContentTypeExample | cgi.py:11-13 | 'text/html; charset="utf-8"' gives ("text/html", {"charset": "utf-8"}). |

## Left out

- Engine.ComputeFlagAndSeverity: floats are exact `real`s, so IEEE rounding near the thresholds 0.5, 0.9, 1.2 and 2.0 is not modelled.
- Parser.ParseRange and Parser.ParseValue: `float()` of a literal is its exact decimal value, not the nearest double.
- Engine.FmtNum: only the integer case is exact. The `f"{x:.1f}"` rendering of other values is the parameter `fraction`, an abstract formatter.
- Summary.GenerateEnglishSummary: Python's `str(float)` rendering of values and bounds is the parameter `num`, an abstract formatter.
- Engine.EvaluateTest and Engine.EvaluateReport: the source assigns `test.category` in place, on objects the caller's list still holds. The model returns a new record with the filled category, and the caller's tests are unchanged.
- Parser.ExtractTests: pdfplumber is not modelled. Each page is a record of its optional text and its already-extracted tables, rows of optional strings. The pandas DataFrame is a sequence of row records.
- WebBackend.Translate: the HTTP request of `_translate_chunk` is a function parameter that returns a translation or an error message. The googletrans client of `translator.py` and `translation_tts.py` are not part of this model.
- Translator.TranslateExplanation: the base translator is a function parameter. `DummyEchoTranslator` is `Translator.EchoBackend`.
- Speech.ChunkForTts: gTTS synthesis, the output directory and the uuid-named files of `TTSService` are file and network I/O and are not modelled. The same holds for `NaiveSpeech.ChunkForTts`.
- WhatsApp.Sanitize: the WhatsApp Cloud API calls (`send_lab_summary_template`, `upload_media_and_send_audio`), environment variables and the Streamlit UI of `app.py` are I/O and are not modelled.
- `labbot/config.py` and `eval/*.py` are not part of this model: a static table nothing reads, and CSV and pandas reporting.
- Text.IsDigit and Text.IsWordChar are ASCII-only, while Python's `\d`, `\w`, `\b` and `\D` on `str` patterns are Unicode. `Text.Lower` lowers ASCII letters only, while `str.lower()` lowers every cased letter. The members below inherit these restrictions:
- SpokenNumbers.NormalizeNumbers: ASCII `\d` and `\b`. "९.५" (Devanagari digits) becomes "९ point ५" in Python but stays "९.५" in the model. "न9.4" is unchanged in Python, because the letter न is a word character and blocks `\b`, but the model gives "न9 point 4".
- Speech.SplitSentences: ASCII `(?<!\d)` and `(?!\d)`. Python does not break "९.५ आहे." at the inner dot, but the model does.
- WhatsApp.FormatPhone: ASCII `\D` (`WhatsApp.KeepDigits`). "९८७६५४३२१०" gives "91९८७६५४३२१०" in Python but "" in the model.
- Parser.ParseRange: ASCII `\d`. "१२-१५" gives (12, 15) in Python but no range in the model.
- Parser.ParseValue: ASCII `\d`. "९.४" gives 9.4 in Python but no value in the model.
- Parser.ExtractTests: the line fallback uses the same ASCII scanner (`Decimals.FindAll`). "हिमोग्लोबिन ९.४ g/dL १२ - १५" is a row in Python and is skipped by the model.
- Masking.Mask: ASCII `\d` and `\b`. Python masks "९.५ mg" and leaves "न9 mg" alone, while the model leaves the first and masks the second. The round trip holds either way.
- Masking.MatchEnd: the scanner for `RANGE_PATTERN` and `VALUE_PATTERN` is not proved equal to a grammar of the patterns. Its contract only says that a match starts with a digit at a word boundary and spans pattern characters; `MaskingScan.RangeAt`, `NoRangeAt` and `ValueAt` pin down the common shapes.
- Phones.ExtractPhoneNumbers: ASCII `\d`. "9८७६५४३२१०" is found in Python but not by the model.
- WebBackend.MapLang: ASCII `lower()`. "É" maps to "é" in Python but stays "É" in the model.
- Cgi.ParseHeader: ASCII `lower()` of keys. "CHARSÉT=x" sets the key "charsét" in Python but "charsÉt" in the model.
- Engine.LookupCategory: ASCII `lower()`. The result does not change. Every key is ASCII, and the only capitals that lower to ASCII letters are U+212A KELVIN SIGN, which gives 'k', and U+0130, which gives 'i' followed by U+0307. No key contains 'k' or ends in 'i'.
- Parser.MapHeaders: ASCII `lower()`. The result does not change, for the same reason: no keyword contains 'k' or ends in 'i'.
- Glossary.ApplyGlossary: ASCII `lower()`. The result does not change, for the same reason: no phrase contains 'k' or ends in 'i'.
